/** The JSON text helpers: escaping, finding and copying string values, and items of an array. Texts stand for C
    strings without their terminating NUL; a cursor at the length of the text sees that NUL. */
module Json {
  import opened Buffers

  predicate IsSpace(c: char) {
    c == ' ' || c == '\t' || c == '\n' || c == '\r' || c as int == 0x0B || c as int == 0x0C
  }

  /** The characters isspace accepts, by their codes. */
  lemma SpaceCodes(c: char)
    ensures IsSpace(c) <==> c as int in {9, 10, 11, 12, 13, 32}
  {
  }

  // ----- strings, section 7 of RFC 8259 -----

  function EscapeChar(c: char): (r: string)
    ensures 1 <= |r| <= 2
  {
    if c == '\\' then "\\\\"
    else if c == '"' then "\\\""
    else if c == '\n' then "\\n"
    else if c == '\r' then "\\r"
    else if c == '\t' then "\\t"
    else [c]
  }

  function Escape(s: string): (r: string)
    ensures |r| <= 2 * |s|
  {
    if s == "" then "" else Escape(s[..|s| - 1]) + EscapeChar(s[|s| - 1])
  }

  /** What a character behind a backslash stands for. */
  function EscapedValue(c: char): char {
    if c == 'b' then 8 as char
    else if c == 'f' then 12 as char
    else if c == 'n' then '\n'
    else if c == 'r' then '\r'
    else if c == 't' then '\t'
    else c
  }

  function Unescape(s: string): (r: string)
    ensures |r| <= |s|
  {
    if s == "" then ""
    else if s[0] == '\\' && |s| > 1 then [EscapedValue(s[1])] + Unescape(s[2..])
    else [s[0]] + Unescape(s[1..])
  }

  /** Every backslash begins an escape of two characters; none is left open at the end. */
  predicate Complete(s: string) {
    if s == "" then true
    else if s[0] == '\\' then |s| > 1 && Complete(s[2..])
    else Complete(s[1..])
  }

  /** No quote stands outside an escape. */
  predicate NoBareQuote(s: string) {
    if s == "" then true
    else if s[0] == '\\' then |s| == 1 || NoBareQuote(s[2..])
    else s[0] != '"' && NoBareQuote(s[1..])
  }

  /** A string value ends at k: what is before k is made of whole escapes and has no bare quote. */
  predicate EndsAt(s: string, k: nat) {
    k < |s| && s[k] == '"' && Complete(s[..k]) && NoBareQuote(s[..k])
  }

  /** The scan from position i on, with an escape open or not; -1 when no closing quote is found. */
  function EndFrom(s: string, i: nat, escaped: bool): int
    requires i <= |s|
    ensures -1 <= EndFrom(s, i, escaped) < |s|
    decreases |s| - i
  {
    if i == |s| then -1
    else if escaped then EndFrom(s, i + 1, false)
    else if s[i] == '\\' then EndFrom(s, i + 1, true)
    else if s[i] == '"' then i
    else EndFrom(s, i + 1, false)
  }

  lemma {:induction false} EndShift(s: string, t: string, i: nat, escaped: bool)
    requires i <= |t|
    ensures EndFrom(s + t, |s| + i, escaped) == (if EndFrom(t, i, escaped) < 0 then -1 else |s| + EndFrom(t, i, escaped))
    decreases |t| - i
  {
    if i < |t| {
      EndShift(s, t, i + 1, false);
      EndShift(s, t, i + 1, true);
      assert (s + t)[|s| + i] == t[i];
    }
  }

  /** The scanner finds exactly the first quote that is not escaped. */
  lemma {:induction false} EndIsFirstBareQuote(s: string, k: nat)
    ensures EndsAt(s, k) <==> EndFrom(s, 0, false) == k
    decreases |s|
  {
    if s != "" && s[0] != '"' {
      var n := if s[0] == '\\' && |s| > 1 then 2 else 1;
      var t := s[n..];
      assert s == s[..n] + t;
      EndShift(s[..n], t, 0, false);
      if s[0] != '\\' || |s| > 1 {
        if k >= n { EndIsFirstBareQuote(t, k - n); }
        EndPrefix(s, n, k);
      }
    }
  }

  /** Peeling one character or one escape off the front. */
  lemma EndPrefix(s: string, n: nat, k: nat)
    requires s != "" && s[0] != '"' && n == (if s[0] == '\\' then 2 else 1) && n <= |s|
    ensures k < n ==> !EndsAt(s, k)
    ensures k >= n ==> (EndsAt(s, k) <==> EndsAt(s[n..], k - n))
  {
    if n <= k < |s| {
      assert s[..k][n..] == s[n..][..k - n] && s[n..][k - n] == s[k];
    }
  }

  /** json_find_string_end */
  method FindStringEnd(s: string, start: nat) returns (end: int)
    requires start <= |s|
    ensures end == EndFrom(s, start, false)
  {
    var escaped, cursor := false, start;
    while cursor < |s|
      invariant start <= cursor <= |s| && EndFrom(s, start, false) == EndFrom(s, cursor, escaped)
    {
      if escaped {
        escaped := false;
      } else if s[cursor] == '\\' {
        escaped := true;
      } else if s[cursor] == '"' {
        return cursor;
      }
      cursor := cursor + 1;
    }
    return -1;
  }

  /** The escaper never leaves an escape open and never writes a bare quote. */
  lemma {:induction false} EscapeEnds(pre: string, s: string, rest: string)
    ensures EndFrom(pre + Escape(s) + "\"" + rest, |pre|, false) == |pre| + |Escape(s)|
  {
    var t := pre + Escape(s) + "\"" + rest;
    EscapeSkips(pre, s, "\"" + rest);
    assert t == pre + Escape(s) + ("\"" + rest);
    assert t[|pre| + |Escape(s)|] == '"';
  }

  lemma {:induction false} EscapeSkips(pre: string, s: string, rest: string)
    ensures EndFrom(pre + Escape(s) + rest, |pre|, false) == EndFrom(pre + Escape(s) + rest, |pre| + |Escape(s)|, false)
  {
    if s == "" {
      NothingEscaped();
    } else {
      hide Escape, EscapeChar, EndFrom;
      var n := |s| - 1;
      var e, c := Escape(s[..n]), EscapeChar(s[n]);
      EscapeSnoc(s);
      EscapeSkips(pre, s[..n], c + rest);
      assert pre + Escape(s) + rest == pre + e + (c + rest);
      assert pre + e + c + rest == pre + e + (c + rest);
      EscapedCharSkipped(pre + e, s[n], rest);
    }
  }

  lemma NothingEscaped()
    ensures Escape("") == ""
  {
  }

  lemma EscapeSnoc(s: string)
    requires s != ""
    ensures Escape(s) == Escape(s[..|s| - 1]) + EscapeChar(s[|s| - 1])
  {
  }

  /** The scan passes over an escaped character. */
  lemma EscapedCharSkipped(pre: string, ch: char, rest: string)
    ensures var t := pre + EscapeChar(ch) + rest; EndFrom(t, |pre|, false) == EndFrom(t, |pre| + |EscapeChar(ch)|, false)
  {
    var c := EscapeChar(ch);
    EscapeCharForm(ch);
    hide EscapeChar, EndFrom;
    Between(pre, c, rest);
    ScanOver(pre + c + rest, |pre|, c);
  }

  lemma ScanOver(t: string, k: nat, c: string)
    requires c != "" && k + |c| <= |t| && t[k] == c[0]
    requires if |c| == 2 then c[0] == '\\' else |c| == 1 && c[0] != '\\' && c[0] != '"'
    ensures EndFrom(t, k, false) == EndFrom(t, k + |c|, false)
  {
    hide EndFrom;
    ScanOne(t, k);
  }

  lemma Between(pre: string, c: string, rest: string)
    requires c != ""
    ensures var t := pre + c + rest; |t| >= |pre| + |c| && t[|pre|] == c[0]
  {
  }

  lemma EscapeCharForm(ch: char)
    ensures var c := EscapeChar(ch); if |c| == 2 then c[0] == '\\' else |c| == 1 && c[0] != '\\' && c[0] != '"'
  {
  }

  lemma ScanOne(t: string, k: nat)
    requires k < |t|
    ensures t[k] == '\\' && k + 2 <= |t| ==> EndFrom(t, k, false) == EndFrom(t, k + 2, false)
    ensures t[k] != '\\' && t[k] != '"' ==> EndFrom(t, k, false) == EndFrom(t, k + 1, false)
  {
    if t[k] == '\\' && k + 2 <= |t| { assert EndFrom(t, k, false) == EndFrom(t, k + 1, true); }
  }

  lemma {:induction false} UnescapeSplit(s: string, t: string)
    requires Complete(s)
    ensures Unescape(s + t) == Unescape(s) + Unescape(t)
  {
    if s == "" {
      assert s + t == t && "" + Unescape(t) == Unescape(t);
    } else {
      hide Unescape, EscapedValue;
      var n := if s[0] == '\\' then 2 else 1;
      CompleteTail(s, n);
      hide Complete;
      UnescapeSplit(s[n..], t);
      UnescapeFront(s, n);
      SplitTail(s, t, n);
      UnescapeFront(s + t, n);
    }
  }

  lemma CompleteTail(s: string, n: nat)
    requires s != "" && Complete(s) && n == if s[0] == '\\' then 2 else 1
    ensures n <= |s| && Complete(s[n..])
  {
  }

  lemma SplitTail(s: string, t: string, n: nat)
    requires 0 < n <= |s|
    ensures (s + t)[0] == s[0] && (s + t)[n - 1] == s[n - 1] && (s + t)[n..] == s[n..] + t
  {
  }

  /** Peeling one character or one escape off the front. */
  lemma UnescapeFront(s: string, n: nat)
    requires s != "" && n == (if s[0] == '\\' && |s| > 1 then 2 else 1)
    ensures Unescape(s) == [if n == 2 then EscapedValue(s[1]) else s[0]] + Unescape(s[n..])
  {
  }

  lemma {:induction false} CompleteSplit(s: string, t: string)
    requires Complete(s) && Complete(t)
    ensures Complete(s + t)
  {
    if s == "" {
      assert s + t == t;
    } else if s[0] == '\\' {
      CompleteSplit(s[2..], t);
      assert (s + t)[2..] == s[2..] + t;
    } else {
      CompleteSplit(s[1..], t);
      assert (s + t)[1..] == s[1..] + t;
    }
  }

  lemma EscapedCharBack(ch: char)
    ensures Complete(EscapeChar(ch)) && Unescape(EscapeChar(ch)) == [ch]
  {
    var c := EscapeChar(ch);
    if |c| == 2 {
      assert c[0] == '\\' && c[2..] == "" && EscapedValue(c[1]) == ch;
      assert Unescape(c) == [ch] + Unescape("");
    } else {
      assert c[1..] == "";
      assert Unescape(c) == [ch] + Unescape("");
    }
  }

  /** Copying what was escaped gives the string back. */
  lemma {:induction false} UnescapeEscape(s: string)
    ensures Complete(Escape(s)) && Unescape(Escape(s)) == s
  {
    if s != "" {
      var n := |s| - 1;
      var c := EscapeChar(s[n]);
      UnescapeEscape(s[..n]);
      EscapedCharBack(s[n]);
      CompleteSplit(Escape(s[..n]), c);
      UnescapeSplit(Escape(s[..n]), c);
      assert s == s[..n] + [s[n]];
    }
  }

  /** What the escaper writes can stand between quotes. */
  lemma EscapeIsRaw(s: string)
    ensures Complete(Escape(s)) && NoBareQuote(Escape(s))
  {
    var t := "" + Escape(s) + "\"" + "";
    EscapeEnds("", s, "");
    EndIsFirstBareQuote(t, |Escape(s)|);
    assert t[..|Escape(s)|] == Escape(s);
  }

  // ----- what RFC 8259 makes of a string's text -----

  predicate IsHex(c: char) {
    '0' <= c <= '9' || 'A' <= c <= 'F' || 'a' <= c <= 'f'
  }

  function HexValue(c: char): nat
    requires IsHex(c)
  {
    if c <= '9' then c as int - '0' as int
    else if c <= 'F' then c as int - 'A' as int + 10
    else c as int - 'a' as int + 10
  }

  predicate IsUnicodeEscape(s: string) {
    |s| >= 6 && s[0] == '\\' && s[1] == 'u' && IsHex(s[2]) && IsHex(s[3]) && IsHex(s[4]) && IsHex(s[5])
  }

  /** The grammar of section 7: no bare quotes or control characters, and the escapes of one letter or of four
      hexadecimal digits. */
  predicate IsStringText(s: string) {
    if s == "" then true
    else if IsUnicodeEscape(s) then IsStringText(s[6..])
    else if s[0] == '\\' then |s| > 1 && s[1] in "\"\\/bfnrt" && IsStringText(s[2..])
    else s[0] != '"' && s[0] >= ' ' && IsStringText(s[1..])
  }

  /** The code of the character that an escape of one letter stands for: backspace, tab, line feed, form feed, carriage
      return, and quote, slash and backslash themselves. */
  function LetterCode(c: char): nat
    requires c in "\"\\/bfnrt"
  {
    if c == 'b' then 8
    else if c == 't' then 9
    else if c == 'n' then 10
    else if c == 'f' then 12
    else if c == 'r' then 13
    else if c == '"' then 34
    else if c == '/' then 47
    else 92
  }

  /** The characters the text stands for, as numbers; an escape of four digits is one 16-bit unit. */
  function Meaning(s: string): seq<nat>
    requires IsStringText(s)
  {
    if s == "" then []
    else if IsUnicodeEscape(s) then
      [((HexValue(s[2]) * 16 + HexValue(s[3])) * 16 + HexValue(s[4])) * 16 + HexValue(s[5])] + Meaning(s[6..])
    else if s[0] == '\\' then [LetterCode(s[1])] + Meaning(s[2..])
    else [s[0] as int] + Meaning(s[1..])
  }

  /** How many escapes of four digits the text has. */
  function UnicodeEscapes(s: string): nat
    requires IsStringText(s)
  {
    if s == "" then 0
    else if IsUnicodeEscape(s) then 1 + UnicodeEscapes(s[6..])
    else if s[0] == '\\' then UnicodeEscapes(s[2..])
    else UnicodeEscapes(s[1..])
  }

  function Codes(s: string): (r: seq<nat>)
    ensures |r| == |s|
  {
    seq(|s|, i requires 0 <= i < |s| => s[i] as int)
  }

  lemma CodesCons(c: char, s: string)
    ensures Codes([c] + s) == [c as int] + Codes(s)
  {
  }

  /** An escape of four digits is copied as five characters. */
  lemma UnicodeCopied(s: string)
    requires IsUnicodeEscape(s)
    ensures Unescape(s) == s[1..6] + Unescape(s[6..])
  {
    var a, b, c, d := s[2..], s[3..], s[4..], s[5..];
    assert a[1..] == b && b[1..] == c && c[1..] == d && d[1..] == s[6..];
    assert Unescape(d) == [s[5]] + Unescape(s[6..]);
    assert Unescape(c) == [s[4]] + Unescape(d);
    assert Unescape(b) == [s[3]] + Unescape(c);
    assert Unescape(a) == [s[2]] + Unescape(b);
    assert Unescape(s) == [s[1]] + Unescape(a);
    hide Unescape;
    assert s[1..6] == [s[1]] + [s[2]] + [s[3]] + [s[4]] + [s[5]];
  }

  lemma LetterValue(c: char)
    requires c in "\"\\/bfnrt"
    ensures EscapedValue(c) as int == LetterCode(c)
  {
  }

  /** Copying gives four characters too many for every escape of four digits, and otherwise the meaning. */
  lemma {:induction false} CopiedLength(s: string)
    requires IsStringText(s)
    ensures |Unescape(s)| == |Meaning(s)| + 4 * UnicodeEscapes(s)
    ensures UnicodeEscapes(s) == 0 ==> Codes(Unescape(s)) == Meaning(s)
  {
    if s != "" {
      if IsUnicodeEscape(s) {
        hide Unescape;
        UnicodeCopied(s);
        CopiedLength(s[6..]);
      } else {
        var n := if s[0] == '\\' then 2 else 1;
        CopiedLength(s[n..]);
        UnescapeFront(s, n);
        if n == 2 { LetterValue(s[1]); }
        hide Unescape, EscapedValue, LetterCode, Codes, IsStringText;
        CodesCons(if n == 2 then EscapedValue(s[1]) else s[0], Unescape(s[n..]));
      }
    }
  }

  /** Copying a string value gives what the standard says exactly for texts without an escape of four digits. */
  lemma UnescapeMeaning(s: string)
    requires IsStringText(s)
    ensures Codes(Unescape(s)) == Meaning(s) <==> UnicodeEscapes(s) == 0
  {
    hide Codes, Unescape, Meaning, UnicodeEscapes;
    CopiedLength(s);
  }

  /** The letter A written with four digits is copied as five characters. */
  lemma UnescapeFails()
    ensures IsStringText("\\u0041") && Meaning("\\u0041") == [0x41] && Unescape("\\u0041") == "u0041"
  {
    var s := "\\u0041";
    assert s[6..] == "";
    UnicodeCopied(s);
  }

  /** The text of a string is what the scanner takes for one. */
  lemma {:induction false} StringTextIsRaw(s: string)
    requires IsStringText(s)
    ensures Complete(s) && NoBareQuote(s)
  {
    if s != "" {
      if IsUnicodeEscape(s) {
        StringTextIsRaw(s[6..]);
        HexDigitsRaw(s[2..]);
        assert s[2..][4..] == s[6..];
      } else if s[0] == '\\' {
        StringTextIsRaw(s[2..]);
      } else {
        StringTextIsRaw(s[1..]);
      }
    }
  }

  lemma HexDigitsRaw(s: string)
    requires |s| >= 4 && (forall k :: 0 <= k < 4 ==> IsHex(s[k])) && Complete(s[4..]) && NoBareQuote(s[4..])
    ensures Complete(s) && NoBareQuote(s)
  {
    var a, b, c := s[1..], s[2..], s[3..];
    assert a[1..] == b && b[1..] == c && c[1..] == s[4..];
    assert Complete(c) && NoBareQuote(c);
    assert Complete(b) && NoBareQuote(b);
    assert Complete(a) && NoBareQuote(a);
  }

  predicate Escapable(c: char) {
    c >= ' ' || c == '\n' || c == '\r' || c == '\t'
  }

  /** The escaper writes a text of section 7 exactly for strings whose control characters are line feed, carriage return
      and tab. */
  lemma {:induction false} EscapeIsStringText(s: string)
    ensures IsStringText(Escape(s)) <==> forall k :: 0 <= k < |s| ==> Escapable(s[k])
  {
    if s != "" {
      EscapeIsStringText(s[1..]);
      EscapeCons(s[0], s[1..]);
      assert s == [s[0]] + s[1..];
      FirstText(s[0], Escape(s[1..]));
      hide IsStringText, Escape, EscapeChar, Escapable;
      if forall k :: 0 <= k < |s| ==> Escapable(s[k]) {
        forall k | 0 <= k < |s[1..]| ensures Escapable(s[1..][k]) { assert s[1..][k] == s[k + 1]; }
      }
      if forall k :: 0 <= k < |s[1..]| ==> Escapable(s[1..][k]) {
        forall k | 1 <= k < |s| ensures Escapable(s[k]) { assert s[1..][k - 1] == s[k]; }
      }
    }
  }

  /** What the escaper writes stands for the string it was given. */
  lemma {:induction false} EscapeMeaning(s: string)
    requires forall k :: 0 <= k < |s| ==> Escapable(s[k])
    ensures IsStringText(Escape(s)) && Meaning(Escape(s)) == Codes(s)
  {
    EscapeIsStringText(s);
    if s == "" {
      NothingEscaped();
    } else {
      var c, rest := s[0], s[1..];
      assert s == [c] + rest;
      hide Escape, EscapeChar, IsStringText, Meaning, Codes, Escapable;
      forall k | 0 <= k < |rest| ensures Escapable(rest[k]) { assert rest[k] == s[k + 1]; }
      EscapeMeaning(rest);
      EscapeCons(c, rest);
      MeaningFirst(c, Escape(rest));
      CodesCons(c, rest);
    }
  }

  lemma MeaningFirst(c: char, rest: string)
    requires Escapable(c) && IsStringText(rest) && IsStringText(EscapeChar(c) + rest)
    ensures Meaning(EscapeChar(c) + rest) == [c as int] + Meaning(rest)
  {
    var r := EscapeChar(c);
    var t := r + rest;
    assert t[0] == r[0] && t[|r|..] == rest;
    if |r| == 2 { assert t[1] == r[1] && t[2..] == rest; }
  }

  /** How many characters are quotes, backslashes, line feeds, carriage returns or tabs. */
  function Specials(s: string): nat {
    if s == "" then 0
    else (if s[0] as int in {34, 92, 10, 13, 9} then 1 else 0) + Specials(s[1..])
  }

  /** Each of these takes one character more, and no other. */
  lemma {:induction false} EscapedLength(s: string)
    ensures |Escape(s)| == |s| + Specials(s)
  {
    if s == "" {
      NothingEscaped();
    } else {
      EscapedLength(s[1..]);
      EscapeCons(s[0], s[1..]);
      assert s == [s[0]] + s[1..];
      CharLength(s[0]);
    }
  }

  lemma CharLength(c: char)
    ensures |EscapeChar(c)| == if c as int in {34, 92, 10, 13, 9} then 2 else 1
  {
  }

  lemma {:induction false} EscapeCons(c: char, s: string)
    ensures Escape([c] + s) == EscapeChar(c) + Escape(s)
  {
    hide EscapeChar, Escape;
    EscapeSnoc([c] + s);
    NothingEscaped();
    if s == "" {
      assert [c] + s == [c] && [c][..0] == "";
      assert "" + EscapeChar(c) == EscapeChar(c) == EscapeChar(c) + "";
    } else {
      var n := |s| - 1;
      EscapeSnoc(s);
      EscapeCons(c, s[..n]);
      assert ([c] + s)[..n + 1] == [c] + s[..n] && ([c] + s)[n + 1] == s[n];
    }
  }

  lemma FirstText(c: char, rest: string)
    ensures IsStringText(EscapeChar(c) + rest) <==> Escapable(c) && IsStringText(rest)
  {
    var r := EscapeChar(c);
    var t := r + rest;
    assert t[0] == r[0] && t[|r|..] == rest;
    if |r| == 2 { assert t[1] == r[1] && t[2..] == rest; }
  }

  /** json_escape_string */
  method EscapeString(input: string, out: array?<char>, outSize: nat) returns (ok: bool)
    requires out != null ==> outSize <= out.Length
    modifies out
    ensures ok <==> out != null && outSize > 0 && (input == "" || |Escape(input)| + 2 <= outSize)
    ensures ok ==> out[..] == Splice(old(out[..]), 0, Escape(input) + ['\0'])
  {
    hide Splice, EscapeChar;
    if out == null || outSize == 0 { return false; }
    ghost var o := out[..];
    SpliceEmpty(o, 0);
    var idx, k := 0, 0;
    assert input[..0] == "";
    while k < |input|
      invariant 0 <= k <= |input| && idx == |Escape(input[..k])| && (k == 0 || idx + 2 <= outSize)
      invariant out[..] == Splice(o, 0, Escape(input[..k]))
    {
      EscapeGrows(input, k);
      var ch := input[k];
      var r := EscapeChar(ch);
      if |r| == 2 {
        if idx + 2 + 1 >= outSize { return false; }
        SpliceSplice(o, 0, Escape(input[..k]), r);
        CopyInto(out, idx, r);
        idx := idx + 2;
      } else {
        if idx + 2 >= outSize { return false; }
        SpliceSplice(o, 0, Escape(input[..k]), r);
        CopyInto(out, idx, r);
        idx := idx + 1;
      }
      k := k + 1;
    }
    assert input[..k] == input;
    SpliceSnoc(o, 0, Escape(input), '\0');
    out[idx] := '\0';
    return true;
  }

  lemma EscapeGrows(s: string, k: nat)
    requires k < |s|
    ensures Escape(s[..k + 1]) == Escape(s[..k]) + EscapeChar(s[k])
    ensures |Escape(s[..k + 1])| <= |Escape(s)|
  {
    assert s[..k + 1][..k] == s[..k];
    EscapeMono(s, k + 1);
  }

  lemma {:induction false} EscapeMono(s: string, k: nat)
    requires k <= |s|
    ensures |Escape(s[..k])| <= |Escape(s)|
  {
    if k == |s| {
      assert s[..k] == s;
    } else {
      EscapeMono(s[..|s| - 1], k);
      assert s[..|s| - 1][..k] == s[..k];
    }
  }

  /** A buffer of twice the length and 32 bytes more is always enough. */
  lemma EscapeRoom(s: string)
    ensures |Escape(s)| + 2 <= 2 * |s| + 32
  {
    hide Escape;
  }

  /** json_copy_string_value on the text between two positions. */
  method CopyStringValue(s: string, start: nat, end: nat, out: array?<char>, outSize: nat) returns (ok: bool)
    requires start <= |s| && end <= |s| && (out != null ==> outSize <= out.Length)
    modifies out
    ensures ok <==> out != null && outSize > 0 && start <= end && |Unescape(s[start..end])| < outSize
    ensures ok ==> out[..] == Splice(old(out[..]), 0, Unescape(s[start..end]) + ['\0'])
    ensures !ok && out != null ==>
      out[..] == if outSize == 0 || end < start then old(out[..])
                 else Splice(old(out[..]), 0, Unescape(s[start..end])[..outSize - 1])
  {
    hide Splice, EscapedValue, Unescape;
    if out == null || outSize == 0 || end < start { return false; }
    ghost var o, done: string := out[..], "";
    SpliceEmpty(o, 0);
    var idx, cursor := 0, start;
    while cursor < end
      invariant start <= cursor <= end && idx == |done| < outSize
      invariant Unescape(s[start..end]) == done + Unescape(s[cursor..end])
      invariant out[..] == Splice(o, 0, done)
    {
      UnescapeNext(s, cursor, end, done);
      var ch := s[cursor];
      cursor := cursor + 1;
      if ch == '\\' && cursor < end {
        ch := EscapedValue(s[cursor]);
        cursor := cursor + 1;
      }
      if idx + 1 >= outSize {
        assert Unescape(s[start..end])[..outSize - 1] == done;
        return false;
      }
      SpliceSnoc(o, 0, done, ch);
      out[idx] := ch;
      idx := idx + 1;
      done := done + [ch];
    }
    AllUnescaped(s[cursor..end], done);
    SpliceSnoc(o, 0, done, '\0');
    out[idx] := '\0';
    return true;
  }

  lemma UnescapeNext(s: string, cursor: nat, end: nat, done: string)
    requires cursor < end <= |s|
    ensures var ch := s[cursor];
            done + Unescape(s[cursor..end]) ==
            if ch == '\\' && cursor + 1 < end then done + [EscapedValue(s[cursor + 1])] + Unescape(s[cursor + 2..end])
            else done + [ch] + Unescape(s[cursor + 1..end])
    ensures |done + Unescape(s[cursor..end])| >= |done| + 1
  {
    hide Unescape, EscapedValue;
    var t := s[cursor..end];
    UnescapeFront(t, if t[0] == '\\' && |t| > 1 then 2 else 1);
    assert t[0] == s[cursor] && t[1..] == s[cursor + 1..end];
    if |t| > 1 { assert t[1] == s[cursor + 1] && t[2..] == s[cursor + 2..end]; }
  }

  lemma AllUnescaped(t: string, done: string)
    requires t == ""
    ensures done + Unescape(t) == done
  {
  }
}
