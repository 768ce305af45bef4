/** The ASCII string operations that the parsers rely on: trimming, splitting, replacing, numerals. */
module Text {
  import opened Wrappers
  import opened Words

  predicate IsSpace(c: char) {
    c == ' ' || '\t' <= c <= '\r'
  }

  function TrimStart(s: string): string {
    if s != "" && IsSpace(s[0]) then TrimStart(s[1..]) else s
  }

  function TrimEnd(s: string): string {
    if s != "" && IsSpace(s[|s| - 1]) then TrimEnd(s[..|s| - 1]) else s
  }

  function Trim(s: string): string {
    TrimEnd(TrimStart(s))
  }

  /** Non-empty with no white space at either end, so that trimming leaves it alone. */
  predicate Clean(s: string) {
    s != "" && !IsSpace(s[0]) && !IsSpace(s[|s| - 1])
  }

  lemma TrimPadded(s: string)
    requires Clean(s)
    ensures Trim(s) == s && Trim(" " + s) == s && Trim(s + " ") == s && Trim(" " + s + " ") == s
  {
    assert (" " + s)[1..] == s;
    assert (s + " ")[..|s|] == s;
    assert (" " + s + " ")[1..] == s + " ";
    assert TrimStart(s + " ") == s + " ";
    assert TrimEnd(s + " ") == TrimEnd(s) == s;
  }

  /** The six ASCII white-space characters. */
  const BLANKS: string := " \t\n\U{B}\U{C}\r"

  predicate Blank(s: string) {
    forall i :: 0 <= i < |s| ==> s[i] in BLANKS
  }

  lemma BlankExactly(c: char)
    ensures IsSpace(c) <==> c in BLANKS
  {
    assert BLANKS[0] == ' ' && BLANKS[1] == '\t' && BLANKS[2] == '\n' && BLANKS[5] == '\r';
    assert BLANKS[3] as int == 11 && BLANKS[4] as int == 12;
  }

  lemma {:induction false} BlanksTrimmedAfter(s: string, b: string)
    requires Blank(b) && Clean(s)
    ensures TrimEnd(s + b) == s
  {
    if b == "" {
      assert s + b == s;
    } else {
      var t := s + b;
      BlankExactly(b[|b| - 1]);
      assert t[|t| - 1] == b[|b| - 1] && t[..|t| - 1] == s + b[..|b| - 1];
      BlanksTrimmedAfter(s, b[..|b| - 1]);
    }
  }

  lemma {:induction false} AllBlankTrimmed(a: string)
    requires Blank(a)
    ensures TrimStart(a) == ""
  {
    if a != "" {
      BlankExactly(a[0]);
      AllBlankTrimmed(a[1..]);
    }
  }

  /** Trimming removes exactly the white space around a text. */
  lemma TrimExactly(a: string, s: string, b: string)
    requires Blank(a) && Blank(b) && (s == "" || Clean(s))
    ensures Trim(a + s + b) == s
  {
    if s == "" {
      assert a + s + b == a + b;
      AllBlankTrimmed(a + b);
    } else {
      CleanStart(a, s, b);
      BlanksTrimmedAfter(s, b);
    }
  }

  lemma {:induction false} CleanStart(a: string, s: string, b: string)
    requires Blank(a) && Clean(s)
    ensures TrimStart(a + s + b) == s + b
  {
    if a == "" {
      assert a + s + b == s + b;
    } else {
      var t := a + s + b;
      BlankExactly(a[0]);
      assert t[0] == a[0] && t[1..] == a[1..] + s + b;
      CleanStart(a[1..], s, b);
    }
  }

  function UpperChar(c: char): char {
    if 'a' <= c <= 'z' then "ABCDEFGHIJKLMNOPQRSTUVWXYZ"[c as int - 'a' as int] else c
  }

  function ToUpper(s: string): string {
    seq(|s|, i requires 0 <= i < |s| => UpperChar(s[i]))
  }

  lemma LowerUpper(c: char)
    requires !('A' <= c <= 'Z')
    ensures LowerChar(UpperChar(c)) == c
  {
  }

  /** Lower-casing undoes upper-casing. */
  lemma LowerUndoesUpper(s: string)
    requires NoUpper(s)
    ensures ToLower(ToUpper(s)) == s
  {
    forall i | 0 <= i < |s| ensures ToLower(ToUpper(s))[i] == s[i] {
      LowerUpper(s[i]);
    }
  }

  function LowerChar(c: char): char {
    if 'A' <= c <= 'Z' then (c as int + 32) as char else c
  }

  function ToLower(s: string): string {
    seq(|s|, i requires 0 <= i < |s| => LowerChar(s[i]))
  }

  predicate NoUpper(s: string) {
    forall i :: 0 <= i < |s| ==> !('A' <= s[i] <= 'Z')
  }

  lemma ToLowerFixed(s: string)
    requires NoUpper(s)
    ensures ToLower(s) == s
  {
  }

  predicate Lacks(s: string, c: char) {
    forall i :: 0 <= i < |s| ==> s[i] != c
  }

  // Splitting at a character, and joining.

  function SplitOn(s: string, c: char): (r: seq<string>)
    ensures |r| > 0
  {
    if s == "" then [""]
    else if s[0] == c then [""] + SplitOn(s[1..], c)
    else var r := SplitOn(s[1..], c); [[s[0]] + r[0]] + r[1..]
  }

  lemma {:induction false} SplitOnLacking(a: string, c: char)
    requires Lacks(a, c)
    ensures SplitOn(a, c) == [a]
  {
    if a != "" {
      SplitOnLacking(a[1..], c);
      assert [a[0]] + a[1..] == a;
    }
  }

  lemma {:induction false} SplitOnFirst(a: string, c: char, b: string)
    requires Lacks(a, c)
    ensures SplitOn(a + [c] + b, c) == [a] + SplitOn(b, c)
  {
    var s := a + [c] + b;
    if a == "" {
      assert s[1..] == b;
    } else {
      SplitOnFirst(a[1..], c, b);
      assert s[1..] == a[1..] + [c] + b;
      assert [a[0]] + a[1..] == a;
    }
  }

  /** The non-empty pieces, each trimmed. */
  function TrimmedPieces(ps: seq<string>): seq<string> {
    if ps == [] then []
    else
      var p := Trim(ps[0]);
      (if p == "" then [] else [p]) + TrimmedPieces(ps[1..])
  }

  function Join(ps: seq<string>, sep: string): string {
    if ps == [] then ""
    else if |ps| == 1 then ps[0]
    else ps[0] + sep + Join(ps[1..], sep)
  }

  lemma {:induction false} JoinSnoc(ps: seq<string>, p: string, sep: string)
    requires ps != []
    ensures Join(ps + [p], sep) == Join(ps, sep) + sep + p
  {
    if |ps| == 1 {
      assert (ps + [p])[1..] == [p];
    } else {
      JoinSnoc(ps[1..], p, sep);
      assert (ps + [p])[1..] == ps[1..] + [p];
      assert ps[0] + sep + (Join(ps[1..], sep) + sep + p) == ps[0] + sep + Join(ps[1..], sep) + sep + p;
    }
  }

  predicate CleanTerms(ps: seq<string>, c: char) {
    forall i :: 0 <= i < |ps| ==> Clean(ps[i]) && Lacks(ps[i], c)
  }

  lemma LastPiece(s: string, p: string)
    requires Lacks(s, '+') && Trim(s) == p && p != ""
    ensures TrimmedPieces(SplitOn(s, '+')) == [p]
  {
    SplitOnLacking(s, '+');
  }

  lemma FirstPiece(s: string, p: string, rest: string)
    requires Lacks(s, '+') && Trim(s) == p && p != ""
    ensures TrimmedPieces(SplitOn(s + ['+'] + rest, '+')) == [p] + TrimmedPieces(SplitOn(rest, '+'))
  {
    SplitOnFirst(s, '+', rest);
    var tail := SplitOn(rest, '+');
    assert ([s] + tail)[1..] == tail;
  }

  /** Splitting at '+' and trimming undoes joining with " + ". */
  lemma {:induction false} SplitJoinedPadded(ps: seq<string>)
    requires CleanTerms(ps, '+') && ps != []
    ensures TrimmedPieces(SplitOn(" " + Join(ps, " + "), '+')) == ps
    decreases |ps|
  {
    TrimPadded(ps[0]);
    if |ps| == 1 {
      LastPiece(" " + ps[0], ps[0]);
    } else {
      var rest := " " + Join(ps[1..], " + ");
      assert " " + Join(ps, " + ") == (" " + ps[0] + " ") + ['+'] + rest;
      FirstPiece(" " + ps[0] + " ", ps[0], rest);
      SplitJoinedPadded(ps[1..]);
    }
  }

  lemma SplitJoined(ps: seq<string>)
    requires CleanTerms(ps, '+') && ps != []
    ensures TrimmedPieces(SplitOn(Join(ps, " + "), '+')) == ps
  {
    TrimPadded(ps[0]);
    if |ps| == 1 {
      LastPiece(ps[0], ps[0]);
    } else {
      var rest := " " + Join(ps[1..], " + ");
      assert Join(ps, " + ") == (ps[0] + " ") + ['+'] + rest;
      FirstPiece(ps[0] + " ", ps[0], rest);
      SplitJoinedPadded(ps[1..]);
    }
  }

  lemma {:induction false} JoinLacks(ps: seq<string>, sep: string, c: char)
    requires Lacks(sep, c) && forall i :: 0 <= i < |ps| ==> Lacks(ps[i], c)
    ensures Lacks(Join(ps, sep), c)
  {
    if |ps| > 1 {
      JoinLacks(ps[1..], sep, c);
    }
  }

  // Replacing every occurrence of a pattern, left to right.

  function Replace(s: string, pat: string, rep: string): string
    requires pat != ""
  {
    if |s| < |pat| then s
    else if pat <= s then rep + Replace(s[|pat|..], pat, rep)
    else [s[0]] + Replace(s[1..], pat, rep)
  }

  lemma {:induction false} ReplaceSkip(a: string, b: string, pat: string, rep: string)
    requires pat != "" && Lacks(a, pat[0])
    ensures Replace(a + b, pat, rep) == a + Replace(b, pat, rep)
  {
    if a == "" {
      assert a + b == b;
    } else {
      var s := a + b;
      assert s[0] == a[0] && s[1..] == a[1..] + b;
      ReplaceSkip(a[1..], b, pat, rep);
      if |s| < |pat| {
        assert Replace(b, pat, rep) == b;
      } else {
        assert s[0] != pat[0];
        assert [a[0]] + (a[1..] + Replace(b, pat, rep)) == a + Replace(b, pat, rep);
      }
    }
  }

  /** A pattern whose second character is missing from a, and does not come next, is not found in a. */
  lemma {:induction false} ReplaceSkipSecond(a: string, b: string, pat: string, rep: string)
    requires |pat| >= 2 && Lacks(a, pat[1]) && (b == "" || b[0] != pat[1])
    ensures Replace(a + b, pat, rep) == a + Replace(b, pat, rep)
  {
    if a == "" {
      assert a + b == b;
    } else {
      var s := a + b;
      assert s[0] == a[0] && s[1..] == a[1..] + b;
      ReplaceSkipSecond(a[1..], b, pat, rep);
      if |s| < |pat| {
        assert Replace(b, pat, rep) == b;
      } else {
        assert s[1] != pat[1];
        assert [a[0]] + (a[1..] + Replace(b, pat, rep)) == a + Replace(b, pat, rep);
      }
    }
  }

  lemma ReplaceAbsent(s: string, pat: string, rep: string)
    requires pat != "" && Lacks(s, pat[0])
    ensures Replace(s, pat, rep) == s
  {
    ReplaceSkip(s, "", pat, rep);
    assert s + "" == s;
  }

  // Numerals, as Rust's `from_str_radix` reads them.

  function DigitOf(c: char): nat {
    if '0' <= c <= '9' then c as int - '0' as int
    else if 'a' <= c <= 'f' then c as int - 'a' as int + 10
    else if 'A' <= c <= 'F' then c as int - 'A' as int + 10
    else 99
  }

  function DigitsValue(s: string, radix: nat): Option<nat> {
    if s == "" then Some(0)
    else
      var rest, d := DigitsValue(s[..|s| - 1], radix), DigitOf(s[|s| - 1]);
      if rest.Some? && d < radix then Some(rest.value * radix + d) else None
  }

  /** `u64::from_str_radix`: an optional plus sign, then digits, in range. */
  function ParseU64(s: string, radix: nat): Option<word> {
    if s == "" || s == "+" then None
    else
      var v := DigitsValue(if s[0] == '+' then s[1..] else s, radix);
      if v.Some? && v.value < 0x1_0000_0000_0000_0000 then Some(v.value) else None
  }

  /** `i64::from_str_radix`: an optional sign, then digits, in range. */
  function ParseI64(s: string, radix: nat): Option<int64> {
    if s == "" || s == "+" || s == "-" then None
    else
      var v := DigitsValue(if s[0] == '+' || s[0] == '-' then s[1..] else s, radix);
      if v.None? then None
      else
        var n: int := if s[0] == '-' then 0 - v.value else v.value;
        if -0x8000_0000_0000_0000 <= n < 0x8000_0000_0000_0000 then Some(n) else None
  }

  predicate HexPrefixed(s: string) {
    "0x" <= s || "0X" <= s
  }

  /** The target of a direct jump or call, as the CFG and the front end read it. */
  function ParseHexTarget(text: string): Option<word> {
    HexTargetOf(Trim(text))
  }

  function HexTargetOf(s: string): Option<word> {
    if HexPrefixed(s) then ParseU64(s[2..], 16) else ParseU64(s, 16)
  }

  /** The digit d of a lower-case numeral. */
  function DigitChar(d: nat): char
    requires d < 16
  {
    if d < 10 then ('0' as int + d) as char else ('a' as int + (d - 10)) as char
  }

  /** Lower-case hexadecimal without a prefix, as printed by `{:x}` and by Capstone. */
  function Hex(n: nat): (s: string)
    ensures s != "" && forall i :: 0 <= i < |s| ==> '0' <= s[i] <= '9' || 'a' <= s[i] <= 'f'
  {
    if n < 16 then [DigitChar(n)] else Hex(n / 16) + [DigitChar(n % 16)]
  }

  lemma {:induction false} HexValue(n: nat)
    ensures DigitsValue(Hex(n), 16) == Some(n)
  {
    if n < 16 {
      assert Hex(n)[..0] == "";
    } else {
      HexValue(n / 16);
      var s := Hex(n);
      assert s[..|s| - 1] == Hex(n / 16);
    }
  }
}
