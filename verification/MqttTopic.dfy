/** Topic filters of the MQTT client: validity and matching; section 4.7 of MQTT 3.1.1. */
module MqttTopic {
  datatype Status = Success | TopicInvalid | CompareFailed

  // ----- levels -----

  /** The levels of a topic: the parts between slashes, at least one. */
  function Levels(s: string): (ls: seq<string>)
    ensures |ls| >= 1
  {
    if s == "" then [""]
    else if s[0] == '/' then [""] + Levels(s[1..])
    else
      var rest := Levels(s[1..]);
      [[s[0]] + rest[0]] + rest[1..]
  }

  predicate Plain(level: string) {
    '+' !in level && '#' !in level
  }

  /** '+' stands alone in its level, '#' stands alone in the last one. */
  predicate ValidLevels(ls: seq<string>) {
    forall i :: 0 <= i < |ls| ==> Plain(ls[i]) || ls[i] == "+" || (ls[i] == "#" && i == |ls| - 1)
  }

  /** Level by level: '+' matches any one level, '#' the parent and everything below it. With `emptyLast` false the
      wildcards do not match an empty last level. */
  predicate Matches(f: seq<string>, t: seq<string>, emptyLast: bool) {
    if f == [] then t == []
    else if f[0] == "#" then emptyLast || t != [""]
    else if t == [] then false
    else if f[0] == "+" then (emptyLast || t != [""]) && Matches(f[1..], t[1..], emptyLast)
    else f[0] == t[0] && Matches(f[1..], t[1..], emptyLast)
  }

  /** Section 4.7.1 by position: a last level '#' stands for what is behind its parent, the parent included; every other
      level is '+' or equal. */
  ghost predicate MatchesAt(f: seq<string>, t: seq<string>) {
    var n := if f != [] && f[|f| - 1] == "#" then |f| - 1 else |f|;
    && (if n < |f| then |t| >= n else |t| == n)
    && forall i :: 0 <= i < n ==> f[i] == "+" || f[i] == t[i]
  }

  lemma {:induction false} MatchesByPosition(f: seq<string>, t: seq<string>)
    requires forall i :: 0 <= i < |f| - 1 ==> f[i] != "#"
    ensures Matches(f, t, true) <==> MatchesAt(f, t)
  {
    if f != [] && t != [] && f[0] != "#" {
      MatchesByPosition(f[1..], t[1..]);
      if MatchesAt(f, t) {
        assert forall i :: 0 <= i < |f| - 1 ==> f[1..][i] == f[i + 1];
        assert forall i :: 0 <= i < |t| - 1 ==> t[1..][i] == t[i + 1];
      }
      if MatchesAt(f[1..], t[1..]) && (f[0] == "+" || f[0] == t[0]) {
        assert forall i :: 1 <= i < |f| ==> f[i] == f[1..][i - 1];
        assert forall i :: 1 <= i < |t| ==> t[i] == t[1..][i - 1];
      }
    }
  }

  function JoinLevels(ls: seq<string>): string
    requires ls != []
  {
    if |ls| == 1 then ls[0] else ls[0] + "/" + JoinLevels(ls[1..])
  }

  /** The levels hold no slash and make up the topic again with slashes between them. */
  lemma {:induction false} LevelsJoin(s: string)
    ensures JoinLevels(Levels(s)) == s && forall i :: 0 <= i < |Levels(s)| ==> '/' !in Levels(s)[i]
  {
    if s != "" {
      LevelsJoin(s[1..]);
      var rest, ls := Levels(s[1..]), Levels(s);
      assert s == [s[0]] + s[1..];
      if s[0] == '/' {
        assert ls[1..] == rest && ls[0] + "/" + JoinLevels(rest) == "/" + JoinLevels(rest);
      } else {
        assert ls[1..] == rest[1..];
        if |rest| > 1 {
          assert ls[0] + "/" + JoinLevels(ls[1..]) == [s[0]] + (rest[0] + "/" + JoinLevels(rest[1..]));
        }
      }
    }
  }

  // ----- validity -----

  /** What the loop checks at one position. */
  predicate ValidAt(s: string, i: nat)
    requires 1 <= i < |s|
  {
    && (s[i] == '+' ==> s[i - 1] == '/' && (i + 1 < |s| ==> s[i + 1] == '/'))
    && (s[i] == '#' ==> s[i - 1] == '/' && i + 1 == |s|)
  }

  method TopicIsValid(headerCheck: bool, topic: string) returns (ret: Status)
    ensures ret == if headerCheck && !(topic != "" && topic[0] == '/') then TopicInvalid
                   else if forall i :: 1 <= i < |topic| ==> ValidAt(topic, i) then Success else TopicInvalid
    ensures topic != "" && topic[0] == '/' ==> (ret == Success <==> ValidLevels(Levels(topic)))
  {
    hide ValidLevels, Levels, ValidAt;
    if topic != "" && topic[0] == '/' { ValidityByLevels(topic); }
    if headerCheck && (topic == "" || topic[0] != '/') { return TopicInvalid; }
    ret := CheckWildcards(topic);
  }

  method CheckWildcards(topic: string) returns (ret: Status)
    ensures ret == if forall i :: 1 <= i < |topic| ==> ValidAt(topic, i) then Success else TopicInvalid
  {
    var idx := 1;
    while idx < |topic|
      invariant idx >= 1 && forall i :: 1 <= i < idx && i < |topic| ==> ValidAt(topic, i)
    {
      if topic[idx] == '+' {
        if topic[idx - 1] != '/' || (idx + 1 < |topic| && topic[idx + 1] != '/') {
          assert !ValidAt(topic, idx);
          return TopicInvalid;
        }
      }
      if topic[idx] == '#' {
        if topic[idx - 1] != '/' || idx + 1 < |topic| {
          assert !ValidAt(topic, idx);
          return TopicInvalid;
        }
      }
      idx := idx + 1;
    }
    return Success;
  }

  /** Validity of a suffix that is known to start right behind a slash, or not. */
  predicate ValidFrom(s: string, afterSlash: bool) {
    && (forall i :: 1 <= i < |s| ==> ValidAt(s, i))
    && (s != "" && s[0] == '+' ==> afterSlash && (1 < |s| ==> s[1] == '/'))
    && (s != "" && s[0] == '#' ==> afterSlash && |s| == 1)
  }

  lemma ValidTail(s: string)
    requires s != ""
    ensures (forall i :: 1 <= i < |s| ==> ValidAt(s, i)) <==> ValidFrom(s[1..], s[0] == '/')
  {
    var r := s[1..];
    if forall i :: 1 <= i < |s| ==> ValidAt(s, i) {
      forall i | 1 <= i < |r| ensures ValidAt(r, i) { assert ValidAt(s, i + 1); }
      if r != "" { assert ValidAt(s, 1); }
    }
    if ValidFrom(r, s[0] == '/') {
      forall i | 1 <= i < |s| ensures ValidAt(s, i) {
        if i > 1 { assert ValidAt(r, i - 1); }
      }
    }
  }

  /** Replacing the first level does not affect the others. */
  lemma ValidCons(l: string, m: string, rest: seq<string>)
    requires Plain(l) && Plain(m)
    ensures ValidLevels([l] + rest) <==> ValidLevels([m] + rest)
    ensures ValidLevels(["+"] + rest) <==> ValidLevels([m] + rest)
    ensures ValidLevels(rest) && rest != [] <==> ValidLevels([m] + rest) && rest != []
  {
    var a, b, c := [l] + rest, [m] + rest, ["+"] + rest;
    assert forall i :: 1 <= i < |a| ==> a[i] == b[i] == c[i] == rest[i - 1];
    assert forall i :: 0 <= i < |rest| ==> rest[i] == b[i + 1];
  }

  lemma PlainCons(c: char, l: string)
    ensures Plain([c] + l) <==> c != '+' && c != '#' && Plain(l)
  {
    assert forall k :: 0 <= k < |l| ==> ([c] + l)[k + 1] == l[k];
  }

  lemma FirstLevel(s: string)
    ensures Levels(s)[0] == "" <==> s == "" || s[0] == '/'
    ensures s == "" ==> Levels(s) == [""]
    ensures s != "" && s[0] == '/' ==> Levels(s) == [""] + Levels(s[1..])
    ensures s != "" && s[0] != '/' ==> Levels(s) == [[s[0]] + Levels(s[1..])[0]] + Levels(s[1..])[1..]
  {
  }

  /** The levels a wildcard character can be part of. */
  lemma WildcardFirst(c: char, rest: seq<string>)
    requires (c == '+' || c == '#') && rest != []
    ensures var ls := [[c] + rest[0]] + rest[1..];
            ValidLevels(ls) <==> rest[0] == "" && if c == '+' then ValidLevels(rest) else |rest| == 1
    ensures !Plain([c] + rest[0])
  {
    var ls := [[c] + rest[0]] + rest[1..];
    PlainCons(c, rest[0]);
    if rest[0] != "" {
      assert |ls[0]| >= 2 && !Plain(ls[0]);
    } else if c == '+' {
      assert ls[0] == "+" && rest == [""] + rest[1..] && ls == ["+"] + rest[1..];
      ValidCons("", "", rest[1..]);
    } else {
      assert ls[0] == "#" && !Plain(ls[0]);
    }
  }

  lemma PlainFirst(c: char, rest: seq<string>)
    requires c != '+' && c != '#' && rest != []
    ensures var ls := [[c] + rest[0]] + rest[1..];
            && (Plain(ls[0]) <==> Plain(rest[0]))
            && (ValidLevels(ls) <==> ValidLevels(rest) && Plain(rest[0]))
  {
    var ls := [[c] + rest[0]] + rest[1..];
    PlainCons(c, rest[0]);
    assert rest == [rest[0]] + rest[1..] && ls[0][0] == c;
    if Plain(rest[0]) {
      ValidCons(ls[0], rest[0], rest[1..]);
    } else {
      assert !Plain(ls[0]) && ls[0] != "+" && ls[0] != "#";
    }
  }

  /** Levels of a suffix that begins inside a level: the first one must then be plain. */
  lemma {:induction false} ValiditySuffix(s: string, afterSlash: bool)
    ensures ValidFrom(s, afterSlash) <==> ValidLevels(Levels(s)) && (afterSlash || Plain(Levels(s)[0]))
  {
    FirstLevel(s);
    assert Plain("");
    if s == "" {
      assert ValidLevels([""]);
    } else {
      var rest := Levels(s[1..]);
      FirstLevel(s[1..]);
      ValidTail(s);
      ValiditySuffix(s[1..], s[0] == '/');
      hide ValidLevels, Levels, Plain, ValidAt;
      if s[0] == '/' {
        ValidCons("", "", rest);
      } else if s[0] == '+' || s[0] == '#' {
        WildcardFirst(s[0], rest);
        OnlyLevel(s[1..]);
      } else {
        PlainFirst(s[0], rest);
      }
    }
  }

  lemma OnlyLevel(s: string)
    ensures Levels(s)[0] == "" && |Levels(s)| == 1 <==> s == ""
  {
  }

  lemma ValidityByLevels(s: string)
    requires s != "" && s[0] == '/'
    ensures (forall i :: 1 <= i < |s| ==> ValidAt(s, i)) <==> ValidLevels(Levels(s))
  {
    ValiditySuffix(s, true);
  }

  // ----- matching -----

  /** The part of a topic behind its first level. */
  function Behind(t: string): string {
    if t == "" || t[0] == '/' then t else Behind(t[1..])
  }

  /** What the single pass decides from one pair of positions on. */
  predicate Passes(f: string, t: string) {
    if f == "" then t == ""
    else if t == "" then f == "/#"
    else if f[0] == '#' then true
    else if f[0] == '+' then (|f| == 1 ==> Behind(t) == "") && Passes(f[1..], Behind(t))
    else f[0] == t[0] && Passes(f[1..], t[1..])
  }

  method TopicCompare(topic: string, cmpTopic: string) returns (ret: Status)
    ensures ret == if Passes(topic, cmpTopic) then Success else CompareFailed
  {
    var idx, cmpIdx := 0, 0;
    assert topic[0..] == topic && cmpTopic[0..] == cmpTopic;
    while idx < |topic|
      invariant 0 <= idx <= |topic| && 0 <= cmpIdx <= |cmpTopic|
      invariant Passes(topic, cmpTopic) == Passes(topic[idx..], cmpTopic[cmpIdx..])
      decreases |topic| - idx
    {
      ghost var f, t := topic[idx..], cmpTopic[cmpIdx..];
      assert f[1..] == topic[idx + 1..];
      if cmpIdx >= |cmpTopic| {
        if |topic| - idx == 2 && topic[idx..idx + 2] == "/#" {
          assert f == topic[idx..idx + 2];
          return Success;
        } else {
          assert |topic| - idx == 2 ==> f == topic[idx..idx + 2];
          return CompareFailed;
        }
      }
      if topic[idx] == '#' { return Success; }
      if topic[idx] == '+' {
        ghost var start := cmpIdx;
        while cmpIdx < |cmpTopic|
          invariant start <= cmpIdx <= |cmpTopic| && Behind(t) == Behind(cmpTopic[cmpIdx..])
        {
          if cmpTopic[cmpIdx] == '/' {
            if idx + 1 == |topic| { return CompareFailed; } else { break; }
          }
          assert cmpTopic[cmpIdx..][1..] == cmpTopic[cmpIdx + 1..];
          cmpIdx := cmpIdx + 1;
        }
        assert Behind(t) == cmpTopic[cmpIdx..];
      } else {
        if topic[idx] != cmpTopic[cmpIdx] { return CompareFailed; }
        assert t[1..] == cmpTopic[cmpIdx + 1..];
        cmpIdx := cmpIdx + 1;
      }
      idx := idx + 1;
    }
    if cmpIdx < |cmpTopic| { return CompareFailed; }
    return Success;
  }

  lemma {:induction false} BehindLevels(t: string)
    ensures if Behind(t) == "" then |Levels(t)| == 1 else Behind(t)[0] == '/' && Levels(t)[1..] == Levels(Behind(t)[1..])
  {
    if t != "" && t[0] != '/' {
      BehindLevels(t[1..]);
      assert Levels(t)[1..] == Levels(t[1..])[1..];
    } else if t != "" {
      assert Levels(t)[1..] == Levels(t[1..]);
    }
  }

  /** Matching where the filter begins with a plain level. */
  lemma PlainLevel(l: string, f: seq<string>, t: seq<string>, e: bool)
    requires Plain(l)
    ensures Matches([l] + f, t, e) <==> t != [] && t[0] == l && Matches(f, t[1..], e)
  {
    assert ([l] + f)[1..] == f && l != "#" && l != "+" by { assert '#' in "#" && '+' in "+"; }
  }

  lemma PlusLevel(f: seq<string>, t: seq<string>, e: bool)
    ensures Matches(["+"] + f, t, e) <==> t != [] && (e || t != [""]) && Matches(f, t[1..], e)
  {
    assert (["+"] + f)[1..] == f;
  }

  /** A level that is matched by '#' alone. */
  lemma HashLevel(g: string)
    requires ValidFrom(g, true)
    ensures Matches(Levels(g), [], false) <==> g == "#"
  {
    FirstLevel(g);
    if g != "" {
      FirstLevel(g[1..]);
      OnlyLevel(g[1..]);
      if g[0] == '#' { assert g == "#"; }
      assert g[0] != '/' ==> Levels(g)[0][0] == g[0];
    }
  }

  /** The single pass over characters decides level-by-level matching, except that a wildcard does not match an
      empty last level. */
  lemma {:induction false} PassesByLevels(f: string, t: string, afterSlash: bool)
    requires ValidFrom(f, afterSlash)
    ensures Passes(f, t) <==> Matches(Levels(f), Levels(t), false)
    decreases |f|
  {
    FirstLevel(f);
    FirstLevel(t);
    OnlyLevel(t);
    if f == "" {
      PlainLevel("", [], Levels(t), false);
    } else if f[0] == '#' {
      assert f == "#";
      HashLevel("#");
    } else {
      ValidTail(f);
      if f[0] == '+' {
        PassesByLevels(f[1..], Behind(t), false);
        PlusPasses(f, t);
      } else if t == "" {
        EmptyTopic(f);
      } else {
        PassesByLevels(f[1..], t[1..], f[0] == '/');
        SameFirst(f, t);
      }
    }
  }

  lemma PlusPasses(f: string, t: string)
    requires f != "" && f[0] == '+' && (1 < |f| ==> f[1] == '/')
    requires Passes(f[1..], Behind(t)) <==> Matches(Levels(f[1..]), Levels(Behind(t)), false)
    ensures Passes(f, t) <==> Matches(Levels(f), Levels(t), false)
  {
    hide Matches, Levels;
    FirstLevel(f);
    FirstLevel(f[1..]);
    FirstLevel(t);
    OnlyLevel(t);
    BehindLevels(t);
    var b := Behind(t);
    FirstLevel(b);
    assert ['+'] + "" == "+";
    if |f| == 1 {
      PlusLevel([], Levels(t), false);
      NoLevels(Levels(t)[1..]);
      assert f[1..] == "" && [""][1..] == [];
      assert Levels(f) == ["+"] + [];
    } else {
      var g := Levels(f[1..][1..]);
      PlusLevel(g, Levels(t), false);
      PlainLevel("", g, Levels(b), false);
      assert f[1..][0] == '/' && ([""] + g)[1..] == g;
      assert Levels(f) == ["+"] + g;
      if b == "" { assert Levels(t)[1..] == [] == Levels(b)[1..]; }
    }
  }

  lemma NoLevels(t: seq<string>)
    ensures Matches([], t, false) <==> t == []
  {
  }

  lemma EmptyTopic(f: string)
    requires f != "" && f[0] != '+' && f[0] != '#' && ValidFrom(f[1..], f[0] == '/')
    ensures Passes(f, "") <==> Matches(Levels(f), Levels(""), false)
  {
    FirstLevel(f);
    FirstLevel("");
    if f[0] == '/' {
      PlainLevel("", Levels(f[1..]), [""], false);
      HashLevel(f[1..]);
      assert [""][1..] == [] && f == "/" + f[1..];
    } else {
      ValiditySuffix(f[1..], false);
      PlainCons(f[0], Levels(f[1..])[0]);
      PlainLevel(Levels(f)[0], Levels(f)[1..], [""], false);
      assert Levels(f) == [Levels(f)[0]] + Levels(f)[1..];
    }
  }

  lemma SameFirst(f: string, t: string)
    requires f != "" && t != "" && f[0] != '+' && f[0] != '#' && ValidFrom(f[1..], f[0] == '/')
    requires Passes(f[1..], t[1..]) <==> Matches(Levels(f[1..]), Levels(t[1..]), false)
    ensures Passes(f, t) <==> Matches(Levels(f), Levels(t), false)
  {
    hide Matches, Levels;
    var f1, t1 := Levels(f[1..]), Levels(t[1..]);
    FirstLevel(f);
    FirstLevel(t);
    if f[0] == '/' {
      PlainLevel("", f1, Levels(t), false);
    } else {
      ValiditySuffix(f[1..], false);
      PlainCons(f[0], f1[0]);
      PlainLevel([f[0]] + f1[0], f1[1..], Levels(t), false);
      PlainLevel(f1[0], f1[1..], t1, false);
      assert f1 == [f1[0]] + f1[1..];
      if t[0] != '/' { SameHead(f[0], f1[0], t[0], t1[0]); }
    }
  }

  lemma SameHead(c: char, l: string, d: char, m: string)
    ensures [c] + l == [d] + m <==> c == d && l == m
  {
    if [c] + l == [d] + m { assert ([c] + l)[0] == ([d] + m)[0] && ([c] + l)[1..] == ([d] + m)[1..]; }
  }

  /** On topic names that do not end in a slash, the pass is exactly the matching of section 4.7.1. */
  lemma {:induction false} EmptyLastDecides(f: seq<string>, t: seq<string>)
    requires t != [] ==> t[|t| - 1] != ""
    ensures Matches(f, t, false) <==> Matches(f, t, true)
  {
    if f != [] && t != [] {
      EmptyLastDecides(f[1..], t[1..]);
    }
  }

  lemma {:induction false} LastLevel(t: string)
    requires t != ""
    ensures Levels(t)[|Levels(t)| - 1] == "" <==> t[|t| - 1] == '/'
  {
    hide Levels;
    FirstLevel(t);
    FirstLevel(t[1..]);
    if |t| > 1 {
      LastLevel(t[1..]);
    }
  }

  lemma HashIsLast(ls: seq<string>)
    requires ValidLevels(ls)
    ensures forall i :: 0 <= i < |ls| - 1 ==> ls[i] != "#"
  {
    assert '#' == "#"[0];
  }

  /** For every accepted filter that begins with a slash, and every topic name that does not end in a slash, the matcher
      succeeds exactly when the levels match. */
  lemma MatcherCorrect(f: string, t: string)
    requires f != "" && f[0] == '/' && ValidLevels(Levels(f)) && (t != "" ==> t[|t| - 1] != '/')
    ensures Passes(f, t) <==> Matches(Levels(f), Levels(t), true)
    ensures Passes(f, t) <==> MatchesAt(Levels(f), Levels(t))
  {
    HashIsLast(Levels(f));
    MatchesByPosition(Levels(f), Levels(t));
    hide MatchesAt;
    ValiditySuffix(f, true);
    PassesByLevels(f, t, true);
    if t == "" {
      FirstLevel(f);
      FirstLevel(t);
      EmptyLastDecides(Levels(f)[1..], []);
    } else {
      LastLevel(t);
      EmptyLastDecides(Levels(f), Levels(t));
    }
  }

  /** The condition on the topic name is exact: for every one that ends in a slash there is an accepted filter that
      the standard matches and the matcher does not, namely the name followed by '+'. */
  lemma EmptyLastLevelFails(t: string)
    requires t != "" && t[0] == '/' && t[|t| - 1] == '/' && Plain(t)
    ensures ValidLevels(Levels(t + "+")) && Matches(Levels(t + "+"), Levels(t), true) && !Passes(t + "+", t)
  {
    EmptyLastLevels(t);
    assert (t + "+")[0] == t[0];
    hide Matches, ValidLevels, Levels, Passes;
    ValiditySuffix(t + "+", true);
    PassesByLevels(t + "+", t, true);
  }

  lemma {:induction false} EmptyLastLevels(t: string)
    requires t != "" && t[|t| - 1] == '/' && Plain(t)
    ensures ValidLevels(Levels(t + "+"))
    ensures Matches(Levels(t + "+"), Levels(t), true) && !Matches(Levels(t + "+"), Levels(t), false)
    ensures Levels(t + "+")[0] == Levels(t)[0] && Plain(Levels(t)[0])
  {
    hide Levels, Matches, ValidLevels, Plain;
    var f := t + "+";
    FirstLevel(f);
    FirstLevel(t);
    assert f[1..] == t[1..] + "+" && f[0] == t[0];
    assert t == [t[0]] + t[1..];
    PlainCons(t[0], t[1..]);
    TrailingPlus();
    if |t| == 1 {
      assert f[1..] == "+" && t[1..] == "";
    } else {
      EmptyLastLevels(t[1..]);
      ExtendBoth(t[0], Levels(f[1..]), Levels(t[1..]));
    }
  }

  lemma TrailingPlus()
    ensures Levels("+") == ["+"] && ValidLevels([""] + ["+"]) && Levels("") == [""] && Plain("")
    ensures Matches([""] + ["+"], [""] + [""], true) && !Matches([""] + ["+"], [""] + [""], false)
  {
    FirstLevel("+");
    FirstLevel("");
    assert "+"[1..] == "" && Plain("") && ['+'] + "" == "+" && [""][1..] == [];
    assert Levels("+") == ["+"] + [];
    PlainLevel("", ["+"], [""] + [""], true);
    PlainLevel("", ["+"], [""] + [""], false);
    PlusLevel([], [""], true);
    PlusLevel([], [""], false);
    assert ["+"] + [] == ["+"] && ([""] + [""])[1..] == [""];
  }

  /** One more plain character in front of filter and name. */
  lemma ExtendBoth(c: char, f: seq<string>, t: seq<string>)
    requires c != '+' && c != '#' && f != [] && t != [] && f[0] == t[0] && Plain(t[0]) && ValidLevels(f)
    requires Matches(f, t, true) && !Matches(f, t, false)
    ensures Matches([""] + f, [""] + t, true) && !Matches([""] + f, [""] + t, false) && ValidLevels([""] + f)
    ensures var f', t' := [[c] + f[0]] + f[1..], [[c] + t[0]] + t[1..];
            Matches(f', t', true) && !Matches(f', t', false) && ValidLevels(f') && Plain([c] + t[0])
  {
    hide Matches, ValidLevels;
    var l := [c] + f[0];
    EmptyInFront(f, t);
    OtherInFront(f[0], l, f[1..], t[1..]);
    assert f == [f[0]] + f[1..] && t == [t[0]] + t[1..];
    PlainFirst(c, f);
    PlainCons(c, t[0]);
  }

  lemma EmptyInFront(f: seq<string>, t: seq<string>)
    requires f != []
    ensures forall e :: Matches([""] + f, [""] + t, e) <==> Matches(f, t, e)
    ensures ValidLevels([""] + f) <==> ValidLevels(f)
  {
    hide Matches, ValidLevels;
    assert Plain("") && ([""] + t)[1..] == t;
    PlainLevel("", f, [""] + t, true);
    PlainLevel("", f, [""] + t, false);
    ValidCons("", "", f);
  }

  lemma OtherInFront(l: string, m: string, f: seq<string>, t: seq<string>)
    requires Plain(l) && Plain(m)
    ensures forall e :: Matches([l] + f, [l] + t, e) <==> Matches([m] + f, [m] + t, e)
  {
    hide Matches, Plain;
    assert ([l] + t)[1..] == t == ([m] + t)[1..];
    forall e ensures Matches([l] + f, [l] + t, e) <==> Matches([m] + f, [m] + t, e) {
      PlainLevel(l, f, [l] + t, e);
      PlainLevel(m, f, [m] + t, e);
    }
  }
}
