/** Counting and extracting the items of a JSON array text. */
module JsonArray {
  import opened Buffers
  import opened Json
  import opened Options

  // ----- the scanner -----

  /** Nesting depth, and where in a string the scan is. */
  datatype Scan = Scan(depth: nat, inString: bool, escaped: bool)

  const START := Scan(0, false, false)

  function Next(st: Scan, c: char): Scan {
    if st.inString then
      if st.escaped then st.(escaped := false)
      else if c == '\\' then st.(escaped := true)
      else if c == '"' then st.(inString := false)
      else st
    else if c == '"' then st.(inString := true)
    else if c == '{' || c == '[' then st.(depth := st.depth + 1)
    else if (c == '}' || c == ']') && st.depth > 0 then st.(depth := st.depth - 1)
    else st
  }

  predicate TopLevel(st: Scan) {
    !st.inString && st.depth == 0
  }

  function SkipSpace(t: string): (r: string)
    ensures r == "" || !IsSpace(r[0])
    ensures |r| <= |t|
  {
    if t != "" && IsSpace(t[0]) then SkipSpace(t[1..]) else t
  }

  /** Number of items from here on, with `count` before and `item` saying that the current one has begun. */
  function SizeFrom(t: string, st: Scan, count: nat, item: bool): int
    decreases |t|
  {
    if t == "" then -1
    else
      var c, rest := t[0], t[1..];
      if st.inString || IsSpace(c) then SizeFrom(rest, Next(st, c), count, item)
      else if c == '"' || c == '{' || c == '[' then SizeFrom(rest, Next(st, c), count, true)
      else if c == '}' || c == ']' then
        if st.depth > 0 then SizeFrom(rest, Next(st, c), count, item)
        else if c == ']' then count + (if item then 1 else 0)
        else SizeFrom(rest, st, count, item)
      else if c == ',' && st.depth == 0 then
        if item then SizeFrom(rest, st, count + 1, false) else SizeFrom(rest, st, count, item)
      else SizeFrom(rest, st, count, true)
  }

  function ArraySizeOf(text: string): int {
    var t := SkipSpace(text);
    if t == "" || t[0] != '[' then -1
    else
      var u := SkipSpace(t[1..]);
      if u == "" then -1 else if u[0] == ']' then 0 else SizeFrom(u, START, 0, false)
  }

  function TrimEnd(s: string): (r: string)
    ensures r == "" || !IsSpace(r[|r| - 1])
    ensures |r| <= |s|
  {
    if s != "" && IsSpace(s[|s| - 1]) then TrimEnd(s[..|s| - 1]) else s
  }

  function Trim(s: string): (r: string)
    ensures |r| <= |s|
  {
    TrimEnd(SkipSpace(s))
  }

  /** The item `index` from here on, where the current one has number k and has begun with `cur`. */
  function ItemFrom(t: string, st: Scan, cur: string, k: nat, index: nat): Option<string>
    decreases |t|
  {
    if t == "" then None
    else
      var c, rest := t[0], t[1..];
      if TopLevel(st) && c == ']' then if k == index then Some(Trim(cur)) else None
      else if TopLevel(st) && c == ',' then
        if k == index then Some(Trim(cur)) else ItemFrom(rest, st, "", k + 1, index)
      else ItemFrom(rest, Next(st, c), cur + [c], k, index)
  }

  function ItemOf(text: string, index: nat): Option<string> {
    var t := SkipSpace(text);
    if t == "" || t[0] != '[' then None
    else
      var u := SkipSpace(t[1..]);
      if u == "" || u[0] == ']' then None else ItemFrom(u, START, "", 0, index)
  }

  // ----- well-formed arrays -----

  /** No comma or closing bracket of the enclosing array inside x. */
  predicate Inside(st: Scan, x: string)
    decreases |x|
  {
    x == "" || (!(TopLevel(st) && (x[0] == ',' || x[0] == ']' || x[0] == '}')) && Inside(Next(st, x[0]), x[1..]))
  }

  function After(st: Scan, x: string): Scan
    decreases |x|
  {
    if x == "" then st else After(Next(st, x[0]), x[1..])
  }

  /** A balanced text with closed strings. */
  predicate IsPiece(x: string) {
    Inside(START, x) && After(START, x) == START
  }

  /** Such a text that is not all spaces. */
  predicate IsItem(x: string) {
    IsPiece(x) && SkipSpace(x) != ""
  }

  /** How many of the texts are not all spaces. */
  function NotBlank(pieces: seq<string>): nat {
    if pieces == [] then 0 else (if SkipSpace(pieces[0]) != "" then 1 else 0) + NotBlank(pieces[1..])
  }

  /** Everything behind the opening bracket: the items between commas, and the closing bracket. */
  function Body(items: seq<string>): string
    requires items != []
  {
    if |items| == 1 then items[0] + "]" else items[0] + "," + Body(items[1..])
  }

  /** Whether scanning x shows the beginning of an item. */
  predicate Shows(st: Scan, x: string)
    decreases |x|
  {
    x != "" && ((!st.inString && !IsSpace(x[0]) && x[0] != '}' && x[0] != ']') || Shows(Next(st, x[0]), x[1..]))
  }

  lemma {:induction false} SizePastItem(x: string, rest: string, st: Scan, count: nat, item: bool)
    requires Inside(st, x)
    ensures SizeFrom(x + rest, st, count, item) == SizeFrom(rest, After(st, x), count, item || Shows(st, x))
    decreases |x|
  {
    if x == "" {
      assert x + rest == rest;
    } else {
      var t := x + rest;
      assert t[0] == x[0] && t[1..] == x[1..] + rest;
      var now := item || (!st.inString && !IsSpace(x[0]) && x[0] != '}' && x[0] != ']');
      SizePastItem(x[1..], rest, Next(st, x[0]), count, now);
    }
  }

  lemma {:induction false} ItemShows(x: string)
    requires Inside(START, x) && SkipSpace(x) != ""
    ensures Shows(START, x)
    decreases |x|
  {
    if IsSpace(x[0]) { ItemShows(x[1..]); }
  }

  lemma {:induction false} BlankShowsNot(x: string)
    requires Inside(START, x) && SkipSpace(x) == ""
    ensures !Shows(START, x)
    decreases |x|
  {
    if x != "" { BlankShowsNot(x[1..]); }
  }

  lemma {:induction false} SizeOfBody(pieces: seq<string>, rest: string, count: nat)
    requires pieces != [] && forall k :: 0 <= k < |pieces| ==> IsPiece(pieces[k])
    ensures SizeFrom(Body(pieces) + rest, START, count, false) == count + NotBlank(pieces)
  {
    hide Inside, After, SkipSpace, Shows, SizeFrom;
    var x := pieces[0];
    var one := if SkipSpace(x) != "" then 1 else 0;
    if one == 1 { ItemShows(x); } else { BlankShowsNot(x); }
    if |pieces| == 1 {
      assert Body(pieces) + rest == x + ("]" + rest);
      SizePastItem(x, "]" + rest, START, count, false);
      SizeAtEnd(rest, count, one == 1);
    } else {
      var tail := Body(pieces[1..]) + rest;
      assert Body(pieces) + rest == x + ("," + tail);
      SizePastItem(x, "," + tail, START, count, false);
      SizeAtComma(tail, count, one == 1);
      SizeOfBody(pieces[1..], rest, count + one);
    }
  }

  lemma SizeAtEnd(rest: string, count: nat, item: bool)
    ensures SizeFrom("]" + rest, START, count, item) == count + if item then 1 else 0
  {
  }

  lemma SizeAtComma(tail: string, count: nat, item: bool)
    ensures SizeFrom("," + tail, START, count, item) == SizeFrom(tail, START, count + if item then 1 else 0, false)
  {
    assert ("," + tail)[1..] == tail;
  }

  lemma {:induction false} SizeSkipsSpace(t: string, count: nat)
    ensures SizeFrom(SkipSpace(t), START, count, false) == SizeFrom(t, START, count, false)
  {
    if t != "" && IsSpace(t[0]) { SizeSkipsSpace(t[1..], count); }
  }

  lemma {:induction false} ItemPastItem(x: string, rest: string, st: Scan, cur: string, k: nat, index: nat)
    requires Inside(st, x)
    ensures ItemFrom(x + rest, st, cur, k, index) == ItemFrom(rest, After(st, x), cur + x, k, index)
    decreases |x|
  {
    hide Trim, Next;
    if x == "" {
      assert x + rest == rest && cur + x == cur;
    } else {
      var t := x + rest;
      assert t[0] == x[0] && t[1..] == x[1..] + rest && cur + x == cur + [x[0]] + x[1..];
      ItemPastItem(x[1..], rest, Next(st, x[0]), cur + [x[0]], k, index);
    }
  }

  lemma {:induction false} ItemOfBody(items: seq<string>, rest: string, k: nat, index: nat)
    requires items != [] && k <= index && forall i :: 0 <= i < |items| ==> IsPiece(items[i])
    ensures ItemFrom(Body(items) + rest, START, "", k, index) ==
            if index - k < |items| then Some(Trim(items[index - k])) else None
  {
    hide Inside, After, SkipSpace, Trim, ItemFrom;
    var x := items[0];
    assert "" + x == x;
    if |items| == 1 {
      assert Body(items) + rest == x + ("]" + rest);
      ItemPastItem(x, "]" + rest, START, "", k, index);
      ItemAtEnd(rest, x, k, index);
    } else {
      var tail := Body(items[1..]) + rest;
      assert Body(items) + rest == x + ("," + tail);
      ItemPastItem(x, "," + tail, START, "", k, index);
      ItemAtComma(tail, x, k, index);
      if k < index { ItemOfBody(items[1..], rest, k + 1, index); }
    }
  }

  lemma ItemAtEnd(rest: string, x: string, k: nat, index: nat)
    ensures ItemFrom("]" + rest, START, x, k, index) == if k == index then Some(Trim(x)) else None
  {
  }

  lemma ItemAtComma(tail: string, x: string, k: nat, index: nat)
    ensures ItemFrom("," + tail, START, x, k, index) ==
            if k == index then Some(Trim(x)) else ItemFrom(tail, START, "", k + 1, index)
  {
    assert ("," + tail)[1..] == tail;
  }

  lemma {:induction false} SkipSpaceTwice(a: string, b: string)
    requires forall k :: 0 <= k < |a| ==> IsSpace(a[k])
    ensures SkipSpace(a + b) == SkipSpace(b)
  {
    if a == "" {
      assert a + b == b;
    } else {
      SkipSpaceTwice(a[1..], b);
      assert (a + b)[1..] == a[1..] + b;
    }
  }

  /** Leading spaces do not change the item that is being collected. */
  lemma {:induction false} ItemIgnoresSpace(t: string, st: Scan, pre: string, cur: string, k: nat, index: nat)
    requires forall i :: 0 <= i < |pre| ==> IsSpace(pre[i])
    ensures ItemFrom(t, st, pre + cur, k, index) == ItemFrom(t, st, cur, k, index)
    decreases |t|
  {
    if t != "" {
      SkipSpaceTwice(pre, cur);
      hide SkipSpace, TrimEnd, Next;
      assert pre + cur + [t[0]] == pre + (cur + [t[0]]);
      ItemIgnoresSpace(t[1..], Next(st, t[0]), pre, cur + [t[0]], k, index);
    }
  }

  lemma {:induction false} ItemSkipsSpace(t: string, k: nat, index: nat)
    ensures ItemFrom(SkipSpace(t), START, "", k, index) == ItemFrom(t, START, "", k, index)
  {
    if t != "" && IsSpace(t[0]) {
      ItemSkipsSpace(t[1..], k, index);
      ItemIgnoresSpace(t[1..], START, [t[0]], "", k, index);
      assert [t[0]] + "" == [t[0]] && "" + [t[0]] == [t[0]];
    }
  }

  lemma {:induction false} FirstOfPiece(x: string, c: char, rest: string)
    requires Inside(START, x) && !IsSpace(c)
    ensures var y := SkipSpace(x + ([c] + rest)); y != "" && if SkipSpace(x) == "" then y[0] == c else y[0] != ']'
    decreases |x|
  {
    if x == "" {
      assert x + ([c] + rest) == [c] + rest;
    } else if IsSpace(x[0]) {
      FirstOfPiece(x[1..], c, rest);
      assert (x + ([c] + rest))[1..] == x[1..] + ([c] + rest);
    } else {
      assert (x + ([c] + rest))[0] == x[0];
    }
  }

  /** An array text as its pieces between commas, which need not be JSON texts and may be empty: the count is that of
      the pieces that are not blank, while the extracted items are all the pieces. */
  lemma PiecesAgree(pre: string, pieces: seq<string>, rest: string, index: nat)
    requires (forall k :: 0 <= k < |pre| ==> IsSpace(pre[k])) && pieces != []
    requires (forall k :: 0 <= k < |pieces| ==> IsPiece(pieces[k])) && (|pieces| == 1 ==> SkipSpace(pieces[0]) != "")
    ensures ArraySizeOf(pre + ("[" + (Body(pieces) + rest))) == NotBlank(pieces)
    ensures ItemOf(pre + ("[" + (Body(pieces) + rest)), index) ==
            if index < |pieces| then Some(Trim(pieces[index])) else None
  {
    hide SkipSpace, SizeFrom, ItemFrom, IsPiece, Body, Trim;
    var b := Body(pieces) + rest;
    Opened(pre, b);
    BodyBegins(pieces, rest);
    SizeSkipsSpace(b, 0);
    SizeOfBody(pieces, rest, 0);
    ItemSkipsSpace(b, 0, index);
    ItemOfBody(pieces, rest, 0, index);
  }

  lemma BodyBegins(pieces: seq<string>, rest: string)
    requires pieces != [] && IsPiece(pieces[0]) && (|pieces| == 1 ==> SkipSpace(pieces[0]) != "")
    ensures SkipSpace(Body(pieces) + rest) != "" && SkipSpace(Body(pieces) + rest)[0] != ']'
  {
    hide SkipSpace, Inside;
    var c := if |pieces| == 1 then ']' else ',';
    var more := if |pieces| == 1 then rest else Body(pieces[1..]) + rest;
    assert Body(pieces) + rest == pieces[0] + ([c] + more);
    FirstOfPiece(pieces[0], c, more);
  }

  lemma {:induction false} CountedPieces(pieces: seq<string>)
    ensures NotBlank(pieces) <= |pieces|
    ensures NotBlank(pieces) == |pieces| <==> forall k :: 0 <= k < |pieces| ==> SkipSpace(pieces[k]) != ""
  {
    hide SkipSpace;
    if pieces != [] {
      CountedPieces(pieces[1..]);
      assert pieces == [pieces[0]] + pieces[1..];
      assert forall k :: 0 <= k < |pieces| - 1 ==> pieces[1..][k] == pieces[k + 1];
      if NotBlank(pieces) == |pieces| {
        forall k | 0 <= k < |pieces| ensures SkipSpace(pieces[k]) != "" {
          if k > 0 { assert pieces[k] == pieces[1..][k - 1]; }
        }
      }
    }
  }

  /** The count is the number of items that can be extracted exactly when no piece between commas is blank. */
  lemma SizeIsItems(pre: string, pieces: seq<string>, rest: string)
    requires (forall k :: 0 <= k < |pre| ==> IsSpace(pre[k])) && pieces != []
    requires (forall k :: 0 <= k < |pieces| ==> IsPiece(pieces[k])) && (|pieces| == 1 ==> SkipSpace(pieces[0]) != "")
    ensures var text := pre + ("[" + (Body(pieces) + rest));
            (forall index: nat :: ItemOf(text, index).Some? <==> index < ArraySizeOf(text))
            <==> forall k :: 0 <= k < |pieces| ==> SkipSpace(pieces[k]) != ""
  {
    hide SkipSpace, IsPiece, Body, ItemOf, ArraySizeOf, Trim, NotBlank;
    var text := pre + ("[" + (Body(pieces) + rest));
    CountedPieces(pieces);
    PiecesAgree(pre, pieces, rest, 0);
    forall index: nat ensures ItemOf(text, index).Some? <==> index < |pieces| {
      PiecesAgree(pre, pieces, rest, index);
    }
    if NotBlank(pieces) < |pieces| { assert ItemOf(text, NotBlank(pieces)).Some?; }
  }

  /** Two commas in a row: two items are counted and three can be extracted, the one between the commas empty. */
  lemma SizeFails()
    ensures ArraySizeOf("[1,,2]") == 2 && ItemOf("[1,,2]", 1) == Some("") && ItemOf("[1,,2]", 2) == Some("2")
  {
    var pieces := ["1", "", "2"];
    var empty: string := "";
    assert IsPiece("1") && IsPiece("") && IsPiece("2") by {
      assert "1"[1..] == "" && "2"[1..] == "";
    }
    assert pieces[1..] == ["", "2"] && ["", "2"][1..] == ["2"] && ["2"][1..] == [];
    assert NotBlank(["2"]) == 1 && NotBlank(["", "2"]) == 1 && NotBlank(pieces) == 2;
    assert Body(["2"]) == "2]" && Body(["", "2"]) == ",2]" && Body(pieces) == "1,,2]";
    assert empty + ("[" + (Body(pieces) + empty)) == "[1,,2]";
    assert Trim("") == "" && Trim("2") == "2";
    hide ArraySizeOf, ItemOf, Trim, IsPiece;
    PiecesAgree(empty, pieces, empty, 1);
    PiecesAgree(empty, pieces, empty, 2);
  }

  /** No closing bracket outside strings and inner brackets. */
  predicate NeverCloses(st: Scan, x: string)
    decreases |x|
  {
    x == "" || (!(TopLevel(st) && x[0] == ']') && NeverCloses(Next(st, x[0]), x[1..]))
  }

  lemma {:induction false} SizeNeedsClose(x: string, st: Scan, count: nat, item: bool)
    ensures SizeFrom(x, st, count, item) == -1 <==> NeverCloses(st, x)
    decreases |x|
  {
    if x != "" {
      var c := x[0];
      var shows := !st.inString && !IsSpace(c) && c != '}' && c != ']' && c != ',';
      SizeNeedsClose(x[1..], Next(st, c), count, item || (shows || (c == ',' && !st.inString && st.depth > 0)));
      SizeNeedsClose(x[1..], Next(st, c), count + 1, false);
    }
  }

  /** The size is -1 exactly for a text that does not begin with a bracket or in which that bracket is never closed. */
  lemma NoSize(text: string)
    ensures var t := SkipSpace(text);
            ArraySizeOf(text) == -1 <==> t == "" || t[0] != '[' || NeverCloses(START, t[1..])
  {
    hide SkipSpace, SizeFrom, NeverCloses;
    var t := SkipSpace(text);
    if t != "" && t[0] == '[' {
      var u := SkipSpace(t[1..]);
      SpaceCloses(t[1..]);
      SizeNeedsClose(u, START, 0, false);
      ClosedAtOnce(u);
    }
  }

  lemma {:induction false} SpaceCloses(x: string)
    ensures NeverCloses(START, SkipSpace(x)) <==> NeverCloses(START, x)
  {
    if x != "" && IsSpace(x[0]) { SpaceCloses(x[1..]); }
  }

  lemma ClosedAtOnce(u: string)
    ensures (u == "" ==> NeverCloses(START, u)) && (u != "" && u[0] == ']' ==> !NeverCloses(START, u))
  {
  }

  lemma Opened(pre: string, b: string)
    requires forall k :: 0 <= k < |pre| ==> IsSpace(pre[k])
    ensures SkipSpace(pre + ("[" + b)) == "[" + b && ("[" + b)[1..] == b
  {
    SkipSpaceTwice(pre, "[" + b);
  }

  lemma {:induction false} ScanSplit(st: Scan, x: string, y: string)
    ensures Inside(st, x + y) <==> Inside(st, x) && Inside(After(st, x), y)
    ensures After(st, x + y) == After(After(st, x), y)
    decreases |x|
  {
    hide Next;
    if x == "" {
      assert x + y == y;
    } else {
      assert (x + y)[0] == x[0] && (x + y)[1..] == x[1..] + y;
      ScanSplit(Next(st, x[0]), x[1..], y);
    }
  }

  /** An array without items has size zero and no item. */
  lemma EmptyArrayAgrees(pre: string, inner: string, rest: string, index: nat)
    requires (forall k :: 0 <= k < |pre| ==> IsSpace(pre[k])) && forall k :: 0 <= k < |inner| ==> IsSpace(inner[k])
    ensures ArraySizeOf(pre + ("[" + (inner + ("]" + rest)))) == 0
    ensures ItemOf(pre + ("[" + (inner + ("]" + rest))), index) == None
  {
    Opened(pre, inner + ("]" + rest));
    SkipSpaceTwice(inner, "]" + rest);
  }

  // ----- JSON texts, section 2 of RFC 8259 -----

  /** A value with the space around its parts. Words are null, true, false and the numbers; the texts of strings and
      names are kept as they stand between their quotes. */
  datatype Value =
    | Word(word: string)
    | Text(raw: string)
    | List(inner: string, values: seq<Value>)
    | Object(inner: string, members: seq<Member>)
    | Spaced(before: string, value: Value, after: string)

  datatype Member = Member(name: string, gap: string, value: Value)

  predicate AllSpace(s: string) {
    forall k :: 0 <= k < |s| ==> IsSpace(s[k])
  }

  /** Letters, digits, signs and points. */
  predicate IsWord(s: string) {
    s != "" && forall k :: 0 <= k < |s| ==>
      'a' <= s[k] <= 'z' || s[k] == 'E' || '0' <= s[k] <= '9' || s[k] == '+' || s[k] == '-' || s[k] == '.'
  }

  predicate IsRaw(s: string) {
    Complete(s) && NoBareQuote(s)
  }

  predicate IsValue(v: Value)
    decreases v
  {
    match v
    case Word(w) => IsWord(w)
    case Text(raw) => IsRaw(raw)
    case List(inner, values) => AllSpace(inner) && forall k :: 0 <= k < |values| ==> IsValue(values[k])
    case Object(inner, members) =>
      AllSpace(inner) && forall k :: 0 <= k < |members| ==>
        IsRaw(members[k].name) && AllSpace(members[k].gap) && IsValue(members[k].value)
    case Spaced(before, value, after) => AllSpace(before) && AllSpace(after) && IsValue(value)
  }

  function Quoted(raw: string): string {
    "\"" + raw + "\""
  }

  function Render(v: Value): string
    decreases v
  {
    match v
    case Word(w) => w
    case Text(raw) => Quoted(raw)
    case List(inner, values) => "[" + (inner + RenderAll(values)) + "]"
    case Object(inner, members) => "{" + (inner + RenderMembers(members)) + "}"
    case Spaced(before, value, after) => before + Render(value) + after
  }

  function RenderAll(values: seq<Value>): string
    decreases values
  {
    if values == [] then ""
    else if |values| == 1 then Render(values[0])
    else Render(values[0]) + ("," + RenderAll(values[1..]))
  }

  function RenderMembers(members: seq<Member>): string
    decreases members
  {
    if members == [] then ""
    else
      var m := members[0];
      var first := Quoted(m.name) + m.gap + ":" + Render(m.value);
      if |members| == 1 then first else first + ("," + RenderMembers(members[1..]))
  }

  /** The value without the space around it. */
  function Core(v: Value): Value {
    if v.Spaced? then Core(v.value) else v
  }

  function At(depth: nat): Scan {
    Scan(depth, false, false)
  }

  /** Scanning x at a depth stays inside and comes back to it. */
  predicate Neutral(depth: nat, x: string) {
    Inside(At(depth), x) && After(At(depth), x) == At(depth)
  }

  lemma NeutralJoin(depth: nat, x: string, y: string)
    requires Neutral(depth, x) && Neutral(depth, y)
    ensures Neutral(depth, x + y)
  {
    hide Inside, After;
    ScanSplit(At(depth), x, y);
  }

  /** Characters without a meaning for the scanner. */
  lemma {:induction false} PlainNeutral(depth: nat, x: string)
    requires forall k :: 0 <= k < |x| ==> Next(At(depth), x[k]) == At(depth) && !(depth == 0 && x[k] in ",]}")
    ensures Neutral(depth, x)
  {
    if x != "" {
      PlainNeutral(depth, x[1..]);
      hide Next;
      assert Next(At(depth), x[0]) == At(depth);
    }
  }

  lemma SpaceNeutral(depth: nat, x: string)
    requires AllSpace(x)
    ensures Neutral(depth, x)
  {
    hide Inside, After;
    PlainNeutral(depth, x);
  }

  lemma WordNeutral(depth: nat, x: string)
    requires IsWord(x)
    ensures Neutral(depth, x)
  {
    hide Inside, After;
    PlainNeutral(depth, x);
  }

  lemma {:induction false} RawStays(st: Scan, raw: string)
    requires st.inString && !st.escaped && IsRaw(raw)
    ensures Inside(st, raw) && After(st, raw) == st
    decreases |raw|
  {
    if raw != "" {
      if raw[0] == '\\' {
        assert raw[1..][1..] == raw[2..] && raw[1..][0] == raw[1];
        assert Next(st, raw[0]) == st.(escaped := true) && Next(st.(escaped := true), raw[1]) == st;
        RawStays(st, raw[2..]);
      } else {
        assert Next(st, raw[0]) == st;
        RawStays(st, raw[1..]);
      }
    }
  }

  lemma One(st: Scan, c: char)
    ensures Inside(st, [c]) <==> !(TopLevel(st) && (c == ',' || c == ']' || c == '}'))
    ensures After(st, [c]) == Next(st, c)
  {
    assert [c][1..] == "" && [c][0] == c;
  }

  lemma QuotedNeutral(depth: nat, raw: string)
    requires IsRaw(raw)
    ensures Neutral(depth, Quoted(raw))
  {
    hide Inside, After, IsRaw;
    var st := Scan(depth, true, false);
    One(At(depth), '"');
    RawStays(st, raw);
    One(st, '"');
    ScanSplit(At(depth), "\"", raw);
    ScanSplit(At(depth), "\"" + raw, "\"");
  }

  /** What is neutral one level further in is neutral between brackets. */
  lemma BracketsNeutral(depth: nat, open: char, x: string, close: char)
    requires (open == '[' || open == '{') && (close == ']' || close == '}') && Neutral(depth + 1, x)
    ensures Neutral(depth, [open] + x + [close])
  {
    hide Inside, After;
    One(At(depth), open);
    One(At(depth + 1), close);
    ScanSplit(At(depth), [open], x);
    ScanSplit(At(depth), [open] + x, [close]);
  }

  lemma CommaNeutral(depth: nat, c: char)
    requires depth > 0 && (c == ',' || c == ':')
    ensures Neutral(depth, [c])
  {
    hide Inside, After;
    One(At(depth), c);
  }

  /** The text of a value is neutral at every depth. */
  lemma {:induction false} ValueNeutral(depth: nat, v: Value)
    requires IsValue(v)
    ensures Neutral(depth, Render(v))
    decreases v
  {
    hide Neutral, AllSpace, IsWord, IsRaw, Quoted;
    match v
    case Word(w) => WordNeutral(depth, w);
    case Text(raw) => QuotedNeutral(depth, raw);
    case List(inner, values) =>
      SpaceNeutral(depth + 1, inner);
      ValuesNeutral(depth + 1, values);
      NeutralJoin(depth + 1, inner, RenderAll(values));
      BracketsNeutral(depth, '[', inner + RenderAll(values), ']');
    case Object(inner, members) =>
      SpaceNeutral(depth + 1, inner);
      MembersNeutral(depth + 1, members);
      NeutralJoin(depth + 1, inner, RenderMembers(members));
      BracketsNeutral(depth, '{', inner + RenderMembers(members), '}');
    case Spaced(before, value, after) =>
      SpaceNeutral(depth, before);
      SpaceNeutral(depth, after);
      ValueNeutral(depth, value);
      NeutralJoin(depth, before, Render(value));
      NeutralJoin(depth, before + Render(value), after);
  }

  lemma {:induction false} ValuesNeutral(depth: nat, values: seq<Value>)
    requires depth > 0 && forall k :: 0 <= k < |values| ==> IsValue(values[k])
    ensures Neutral(depth, RenderAll(values))
    decreases values
  {
    hide Neutral;
    if values == [] {
      EmptyNeutral(depth);
    } else {
      ValueNeutral(depth, values[0]);
      if |values| > 1 {
        ValuesNeutral(depth, values[1..]);
        CommaNeutral(depth, ',');
        NeutralJoin(depth, ",", RenderAll(values[1..]));
        NeutralJoin(depth, Render(values[0]), "," + RenderAll(values[1..]));
      }
    }
  }

  lemma {:induction false} MembersNeutral(depth: nat, members: seq<Member>)
    requires depth > 0
    requires forall k :: 0 <= k < |members| ==>
      IsRaw(members[k].name) && AllSpace(members[k].gap) && IsValue(members[k].value)
    ensures Neutral(depth, RenderMembers(members))
    decreases members
  {
    hide Neutral, AllSpace, IsRaw, Quoted, Render;
    if members == [] {
      EmptyNeutral(depth);
    } else {
      var m := members[0];
      ValueNeutral(depth, m.value);
      MemberNeutral(depth, m.name, m.gap, Render(m.value));
      if |members| > 1 {
        MembersNeutral(depth, members[1..]);
        CommaNeutral(depth, ',');
        NeutralJoin(depth, ",", RenderMembers(members[1..]));
        NeutralJoin(depth, Quoted(m.name) + m.gap + ":" + Render(m.value), "," + RenderMembers(members[1..]));
      }
    }
  }

  lemma MemberNeutral(depth: nat, name: string, gap: string, text: string)
    requires depth > 0 && IsRaw(name) && AllSpace(gap) && Neutral(depth, text)
    ensures Neutral(depth, Quoted(name) + gap + ":" + text)
  {
    hide Neutral, AllSpace, IsRaw, Quoted;
    QuotedNeutral(depth, name);
    SpaceNeutral(depth, gap);
    CommaNeutral(depth, ':');
    NeutralJoin(depth, Quoted(name), gap);
    NeutralJoin(depth, Quoted(name) + gap, ":");
    NeutralJoin(depth, Quoted(name) + gap + ":", text);
  }

  lemma EmptyNeutral(depth: nat)
    ensures Neutral(depth, "")
  {
  }

  /** The text of a value begins and ends with spaces around its core, and the core does neither. */
  lemma {:induction false} CoreOf(v: Value) returns (before: string, after: string)
    requires IsValue(v)
    ensures AllSpace(before) && AllSpace(after) && Render(v) == before + Render(Core(v)) + after
    ensures var x := Render(Core(v)); x != "" && !IsSpace(x[0]) && !IsSpace(x[|x| - 1])
  {
    if v.Spaced? {
      SpacedParts(v);
      hide IsSpace, Render, IsValue, AllSpace, Core;
      var b, a := CoreOf(v.value);
      before, after := v.before + b, a + v.after;
      SpacesJoin(v.before, b);
      SpacesJoin(a, v.after);
      JoinFive(v.before, b, Render(Core(v)), a, v.after);
    } else {
      CoreEnds(v);
      hide IsValue, Render;
      before, after := "", "";
      assert "" + Render(v) + "" == Render(v);
    }
  }

  lemma SpacedParts(v: Value)
    requires IsValue(v) && v.Spaced?
    ensures AllSpace(v.before) && AllSpace(v.after) && IsValue(v.value)
    ensures Render(v) == v.before + Render(v.value) + v.after && Core(v) == Core(v.value)
  {
  }

  lemma SpacesJoin(a: string, b: string)
    requires AllSpace(a) && AllSpace(b)
    ensures AllSpace(a + b)
  {
  }

  lemma JoinFive(a: string, b: string, c: string, d: string, e: string)
    ensures a + (b + c + d) + e == (a + b) + c + (d + e)
  {
  }

  lemma CoreEnds(v: Value)
    requires IsValue(v) && !v.Spaced?
    ensures var x := Render(v); x != "" && !IsSpace(x[0]) && !IsSpace(x[|x| - 1])
  {
    match v
    case Word(w) => assert w[0] == w[0] && w[|w| - 1] == w[|w| - 1];
    case Text(raw) => Ends('"', raw, '"');
    case List(inner, values) => Ends('[', inner + RenderAll(values), ']');
    case Object(inner, members) => Ends('{', inner + RenderMembers(members), '}');
  }

  lemma Ends(open: char, x: string, close: char)
    ensures var r := [open] + x + [close]; r[0] == open && r[|r| - 1] == close
  {
  }

  lemma {:induction false} TrimSpaces(before: string, x: string, after: string)
    requires AllSpace(before) && AllSpace(after) && x != "" && !IsSpace(x[0]) && !IsSpace(x[|x| - 1])
    ensures SkipSpace(before + x + after) == x + after && Trim(before + x + after) == x
    decreases |after|
  {
    assert before + x + after == before + (x + after);
    SkipSpaceTwice(before, x + after);
    assert (x + after)[0] == x[0];
    assert SkipSpace(before + x + after) == x + after;
    hide SkipSpace;
    if after == "" {
      assert x + after == x;
    } else {
      var n := |after| - 1;
      TrimSpaces(before, x, after[..n]);
      assert (x + after)[..|x + after| - 1] == x + after[..n];
      assert SkipSpace(before + x + after[..n]) == x + after[..n];
    }
  }

  /** Every JSON text is an item, and trimming it leaves exactly the text of the value without the space around it. */
  lemma ValueIsItem(v: Value)
    requires IsValue(v)
    ensures IsItem(Render(v)) && Trim(Render(v)) == Render(Core(v))
  {
    hide Inside, After, IsValue, Render;
    ValueNeutral(0, v);
    var b, a := CoreOf(v);
    TrimSpaces(b, Render(Core(v)), a);
  }

  function Texts(values: seq<Value>): seq<string> {
    seq(|values|, i requires 0 <= i < |values| => Render(values[i]))
  }

  lemma {:induction false} ListBody(values: seq<Value>)
    requires values != []
    ensures RenderAll(values) + "]" == Body(Texts(values))
  {
    hide Render;
    if |values| > 1 {
      ListBody(values[1..]);
      assert Texts(values)[1..] == Texts(values[1..]);
      assert RenderAll(values) + "]" == Render(values[0]) + "," + (RenderAll(values[1..]) + "]");
    }
  }

  /** In the text of a JSON array, with any space before it and any text behind it, the count is the number of values
      and each extracted item is the text of that value, without the space around it. */
  lemma ArrayAgrees(pre: string, inner: string, values: seq<Value>, rest: string, index: nat)
    requires AllSpace(pre) && IsValue(List(inner, values))
    ensures var text := pre + Render(List(inner, values)) + rest;
            && ArraySizeOf(text) == |values|
            && ItemOf(text, index) == if index < |values| then Some(Render(Core(values[index]))) else None
  {
    hide ArraySizeOf, ItemOf, IsPiece, SkipSpace, Render, Body, IsSpace;
    RenderList(inner, values);
    var text := pre + Render(List(inner, values)) + rest;
    if values == [] {
      assert text == pre + ("[" + (inner + ("]" + rest)));
      EmptyArrayAgrees(pre, inner, rest, index);
    } else {
      ListBody(values);
      SpaceInside(inner, values);
      var items := Texts(values)[0 := inner + Render(values[0])];
      BodySpaced(inner, Texts(values));
      forall k | 0 <= k < |items| ensures IsItem(items[k]) && Trim(items[k]) == Render(Core(values[k])) {
        if k > 0 { ValueIsItem(values[k]); }
      }
      assert text == pre + ("[" + (Body(items) + rest));
      CountedPieces(items);
      PiecesAgree(pre, items, rest, index);
    }
  }

  lemma RenderList(inner: string, values: seq<Value>)
    ensures Render(List(inner, values)) == "[" + (inner + RenderAll(values)) + "]"
    ensures values == [] ==> RenderAll(values) == ""
  {
  }

  /** The space behind the opening bracket belongs to the first item. */
  lemma SpaceInside(inner: string, values: seq<Value>)
    requires IsValue(List(inner, values)) && values != []
    ensures IsItem(inner + Render(values[0])) && Trim(inner + Render(values[0])) == Render(Core(values[0]))
  {
    var v := Spaced(inner, values[0], "");
    assert IsValue(values[0]) && IsValue(v);
    assert Render(v) == inner + Render(values[0]) + "" == inner + Render(values[0]);
    hide IsItem, Trim, Render, IsValue;
    ValueIsItem(v);
    assert Core(v) == Core(values[0]);
  }

  lemma BodySpaced(inner: string, items: seq<string>)
    requires items != []
    ensures inner + Body(items) == Body(items[0 := inner + items[0]])
  {
    var spaced := items[0 := inner + items[0]];
    assert spaced[1..] == items[1..];
    if |items| == 1 {
      assert inner + (items[0] + "]") == (inner + items[0]) + "]";
    } else {
      assert inner + (items[0] + "," + Body(items[1..])) == (inner + items[0]) + "," + Body(items[1..]);
    }
  }

  /** Every string text of the standard may stand in such a text. */
  lemma StringTextIsValue(s: string)
    requires IsStringText(s)
    ensures IsValue(Text(s))
  {
    StringTextIsRaw(s);
  }

  /** What the escaper writes may stand in such a text, whatever commas, brackets and quotes the string contains. */
  lemma EscapedStringIsItem(s: string)
    ensures IsValue(Text(Escape(s))) && IsItem(Quoted(Escape(s)))
  {
    hide IsItem;
    EscapeIsRaw(s);
    ValueIsItem(Text(Escape(s)));
    assert Render(Text(Escape(s))) == Quoted(Escape(s));
  }

  // ----- the code -----

  method SkipWs(s: string, start: nat) returns (cursor: nat)
    requires start <= |s|
    ensures start <= cursor <= |s| && s[cursor..] == SkipSpace(s[start..])
    ensures forall k :: start <= k < cursor ==> IsSpace(s[k])
    ensures cursor < |s| ==> !IsSpace(s[cursor])
  {
    cursor := start;
    while cursor < |s| && IsSpace(s[cursor])
      invariant start <= cursor <= |s| && SkipSpace(s[start..]) == SkipSpace(s[cursor..])
      invariant forall k :: start <= k < cursor ==> IsSpace(s[k])
    {
      assert s[cursor..][1..] == s[cursor + 1..];
      cursor := cursor + 1;
    }
  }

  /** json_array_size */
  method ArraySize(text: string) returns (n: int)
    ensures n == ArraySizeOf(text)
  {
    hide SkipSpace, SizeFrom;
    assert text[0..] == text;
    var cursor := SkipWs(text, 0);
    if cursor == |text| || text[cursor] != '[' { return -1; }
    assert text[cursor..][1..] == text[cursor + 1..];
    cursor := SkipWs(text, cursor + 1);
    if cursor == |text| { return -1; }
    if text[cursor] == ']' { return 0; }
    n := CountItems(text, cursor);
  }

  method CountItems(text: string, start: nat) returns (n: int)
    requires start <= |text|
    ensures n == SizeFrom(text[start..], START, 0, false)
  {
    var cursor, depth, inString, escaped, count, hasItem := start, 0, false, false, 0, false;
    while cursor < |text|
      invariant start <= cursor <= |text|
      invariant SizeFrom(text[start..], START, 0, false) ==
                SizeFrom(text[cursor..], Scan(depth, inString, escaped), count, hasItem)
      invariant !inString ==> !escaped
    {
      var ch := text[cursor];
      assert text[cursor..][1..] == text[cursor + 1..];
      if inString {
        if escaped { escaped := false; } else if ch == '\\' { escaped := true; } else if ch == '"' { inString := false; }
        cursor := cursor + 1;
        continue;
      }
      if IsSpace(ch) {
        cursor := cursor + 1;
        continue;
      }
      if ch == '"' {
        inString := true;
        hasItem := true;
      } else if ch == '{' || ch == '[' {
        depth := depth + 1;
        hasItem := true;
      } else if ch == '}' || ch == ']' {
        if depth > 0 {
          depth := depth - 1;
        } else if ch == ']' {
          if hasItem { count := count + 1; }
          return count;
        }
      } else if ch == ',' && depth == 0 {
        if hasItem {
          count := count + 1;
          hasItem := false;
        }
      } else {
        hasItem := true;
      }
      cursor := cursor + 1;
    }
    return -1;
  }

  /** json_copy_trimmed on the text between two positions. */
  method CopyTrimmed(s: string, start: nat, end: nat, out: array?<char>, outSize: nat) returns (ok: bool)
    requires start <= |s| && end <= |s| && (out != null ==> outSize <= out.Length)
    modifies out
    ensures ok <==> out != null && outSize > 0 && start <= end && |Trim(s[start..end])| < outSize
    ensures ok ==> out[..] == Splice(old(out[..]), 0, Trim(s[start..end]) + ['\0'])
    ensures !ok && out != null ==> out[..] == old(out[..])
  {
    hide Splice, SkipSpace, TrimEnd;
    if out == null || outSize == 0 || end < start { return false; }
    var from, to := TrimBounds(s, start, end);
    ghost var r, o := Trim(s[start..end]), out[..];
    if to - from >= outSize { return false; }
    CopyInto(out, 0, s[from..to]);
    SpliceSnoc(o, 0, r, '\0');
    out[to - from] := '\0';
    return true;
  }

  method TrimBounds(s: string, start: nat, end: nat) returns (from: nat, to: nat)
    requires start <= end <= |s|
    ensures start <= from <= to <= end && s[from..to] == Trim(s[start..end])
  {
    hide TrimEnd;
    from := start;
    while from < end && IsSpace(s[from])
      invariant start <= from <= end && SkipSpace(s[start..end]) == SkipSpace(s[from..end])
    {
      assert s[from..end][1..] == s[from + 1..end] && s[from..end][0] == s[from];
      from := from + 1;
    }
    assert SkipSpace(s[from..end]) == s[from..end];
    to := TrimRight(s, from, end);
  }

  method TrimRight(s: string, from: nat, end: nat) returns (to: nat)
    requires from <= end <= |s|
    ensures from <= to <= end && s[from..to] == TrimEnd(s[from..end])
  {
    to := end;
    while to > from && IsSpace(s[to - 1])
      invariant from <= to <= end && TrimEnd(s[from..end]) == TrimEnd(s[from..to])
    {
      ghost var t := s[from..to];
      assert t[..|t| - 1] == s[from..to - 1] && t[|t| - 1] == s[to - 1];
      to := to - 1;
    }
    assert TrimEnd(s[from..to]) == s[from..to];
  }

  /** json_array_get_item */
  method ArrayGetItem(text: string, index: nat, out: array?<char>, outSize: nat) returns (ok: bool)
    requires out != null ==> outSize <= out.Length
    modifies out
    ensures ok <==> out != null && outSize > 0 && ItemOf(text, index).Some? && |ItemOf(text, index).value| < outSize
    ensures ok ==> out[..] == Splice(old(out[..]), 0, ItemOf(text, index).value + ['\0'])
    ensures !ok && out != null ==> out[..] == old(out[..])
  {
    hide SkipSpace, ItemFrom, Splice;
    if out == null || outSize == 0 { return false; }
    assert text[0..] == text;
    var cursor := SkipWs(text, 0);
    if cursor == |text| || text[cursor] != '[' { return false; }
    assert text[cursor..][1..] == text[cursor + 1..];
    cursor := SkipWs(text, cursor + 1);
    if cursor == |text| || text[cursor] == ']' { return false; }
    var found, from, to := FindItem(text, cursor, index);
    if !found { return false; }
    ok := CopyTrimmed(text, from, to, out, outSize);
  }

  /** The scan for the bounds of an item. */
  method FindItem(text: string, start: nat, index: nat) returns (found: bool, from: nat, to: nat)
    requires start <= |text|
    ensures found ==> from <= to <= |text|
    ensures ItemFrom(text[start..], START, "", 0, index) == if found then Some(Trim(text[from..to])) else None
  {
    hide SkipSpace, Trim, ItemFrom, ItemAhead;
    var cursor, depth, inString, escaped, k := start, 0, false, false, 0;
    from, to, found := start, start, false;
    AheadFresh(text, start, START, start, 0, index);
    while cursor < |text|
      invariant start <= cursor <= |text| && from <= |text|
      invariant ItemAhead(text, cursor, Scan(depth, inString, escaped), from, k, index) ==
                ItemFrom(text[start..], START, "", 0, index)
      invariant cursor < from ==> !inString && depth == 0 && forall i :: cursor <= i < from ==> IsSpace(text[i])
    {
      var ch := text[cursor];
      AheadStep(text, cursor, Scan(depth, inString, escaped), from, k, index);
      if inString {
        if escaped { escaped := false; } else if ch == '\\' { escaped := true; } else if ch == '"' { inString := false; }
        cursor := cursor + 1;
        continue;
      }
      if ch == '"' {
        inString := true;
      } else if ch == '{' || ch == '[' {
        depth := depth + 1;
      } else if ch == '}' || ch == ']' {
        if depth > 0 {
          depth := depth - 1;
        } else if ch == ']' {
          if k == index { return true, from, cursor; }
          return false, from, cursor;
        }
      } else if ch == ',' && depth == 0 {
        if k == index { return true, from, cursor; }
        k := k + 1;
        from := SkipWs(text, cursor + 1);
        cursor := cursor + 1;
        AheadFresh(text, cursor, Scan(depth, inString, escaped), from, k, index);
        continue;
      }
      cursor := cursor + 1;
    }
    AheadEnd(text, Scan(depth, inString, escaped), from, k, index);
  }

  lemma AheadEnd(text: string, st: Scan, from: nat, k: nat, index: nat)
    requires from <= |text|
    ensures ItemAhead(text, |text|, st, from, k, index) == None
  {
    assert text[|text|..] == "";
  }

  /** What the scan is still to find: the current item begins at `from`, which skipped spaces may have put ahead of
      the cursor. */
  ghost function ItemAhead(text: string, cursor: nat, st: Scan, from: nat, k: nat, index: nat): Option<string>
    requires cursor <= |text| && from <= |text|
  {
    ItemFrom(text[cursor..], st, if from <= cursor then text[from..cursor] else "", k, index)
  }

  lemma AheadFresh(text: string, cursor: nat, st: Scan, from: nat, k: nat, index: nat)
    requires cursor <= from <= |text|
    ensures ItemAhead(text, cursor, st, from, k, index) == ItemFrom(text[cursor..], st, "", k, index)
  {
    assert from == cursor ==> text[from..cursor] == "";
  }

  /** One character of the scan. */
  lemma AheadStep(text: string, cursor: nat, st: Scan, from: nat, k: nat, index: nat)
    requires cursor < |text| && from <= |text| && (cursor < from ==> IsSpace(text[cursor]))
    ensures var c, now := text[cursor], ItemAhead(text, cursor, st, from, k, index);
            if TopLevel(st) && c == ']' then
              from <= cursor && now == if k == index then Some(Trim(text[from..cursor])) else None
            else if TopLevel(st) && c == ',' then
              from <= cursor &&
              now == if k == index then Some(Trim(text[from..cursor]))
                     else ItemFrom(text[cursor + 1..], st, "", k + 1, index)
            else now == ItemAhead(text, cursor + 1, Next(st, c), from, k, index)
  {
    hide Trim, Next;
    var t, c := text[cursor..], text[cursor];
    assert t[0] == c && t[1..] == text[cursor + 1..];
    if from <= cursor {
      assert text[from..cursor] + [c] == text[from..cursor + 1];
    } else {
      assert "" + [c] == [c] && [c] + "" == [c] && (from == cursor + 1 ==> text[from..from] == "");
      ItemIgnoresSpace(t[1..], Next(st, c), [c], "", k, index);
    }
  }
}
