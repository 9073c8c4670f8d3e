/**
 * The JavaScript string operations the handlers rely on: `trim`, ASCII case
 * mapping, `split('/')` with `filter(Boolean)`, `split('/').pop()`,
 * `includes`, `parseInt` and the decimal rendering of a count.
 */
module Text {
  import opened Api

  /** The code points JavaScript counts as WhiteSpace or LineTerminator. */
  predicate IsSpace(c: char) {
    || c == '\t' || c == '\n' || c == '\U{B}' || c == '\U{C}' || c == '\r' || c == ' '
    || c == '\U{A0}' || c == '\U{1680}' || ('\U{2000}' <= c <= '\U{200A}')
    || c == '\U{2028}' || c == '\U{2029}' || c == '\U{202F}' || c == '\U{205F}'
    || c == '\U{3000}' || c == '\U{FEFF}'
  }

  predicate IsBlank(s: string) {
    forall i :: 0 <= i < |s| ==> IsSpace(s[i])
  }

  /** `trimStart`: the suffix left after dropping leading white space. */
  function TrimStart(s: string): (r: string)
    ensures |r| <= |s| && r == s[|s| - |r|..]
    ensures IsBlank(s[..|s| - |r|])
    ensures r == [] || !IsSpace(r[0])
  {
    if |s| > 0 && IsSpace(s[0]) then
      var r := TrimStart(s[1..]);
      assert s[..|s| - |r|] == [s[0]] + s[1..][..|s| - 1 - |r|];
      r
    else
      s
  }

  /** `trimEnd`: the prefix left after dropping trailing white space. */
  function TrimEnd(s: string): (r: string)
    ensures |r| <= |s| && r == s[..|r|]
    ensures IsBlank(s[|r|..])
    ensures r == [] || !IsSpace(r[|r| - 1])
  {
    if |s| > 0 && IsSpace(s[|s| - 1]) then
      var r := TrimEnd(s[..|s| - 1]);
      assert s[|r|..] == s[..|s| - 1][|r|..] + [s[|s| - 1]];
      r
    else
      s
  }

  /** `String.prototype.trim`. */
  function Trim(s: string): (r: string)
    ensures |r| <= |s|
    ensures r == [] <==> IsBlank(s)
    ensures r == [] || (!IsSpace(r[0]) && !IsSpace(r[|r| - 1]))
    ensures s == [] || (!IsSpace(s[0]) && !IsSpace(s[|s| - 1])) ==> r == s
  {
    TrimBlank(s);
    TrimEnd(TrimStart(s))
  }

  /** `trim` keeps a slice of the string with only white space before and after it. */
  lemma TrimIsSlice(s: string)
    ensures exists a, b :: BlankAround(s, a, b) && Trim(s) == s[a..b]
  {
    var t := TrimStart(s);
    var r := TrimEnd(t);
    assert TrimmedFrom(s, t, r);
    SliceBetweenBlanks(s, t, r);
    assert Trim(s) == r;
  }

  /** `s[a..b]` is a slice with only white space before and after it. */
  predicate BlankAround(s: string, a: int, b: int) {
    0 <= a <= b <= |s| && IsBlank(s[..a]) && IsBlank(s[b..])
  }

  /**
   * `t` is what is left of `s` after dropping white space from its start,
   * and `r` what is left of `t` after dropping white space from its end.
   */
  predicate TrimmedFrom(s: string, t: string, r: string) {
    && |t| <= |s| && t == s[|s| - |t|..] && IsBlank(s[..|s| - |t|])
    && (t == [] || !IsSpace(t[0]))
    && |r| <= |t| && r == t[..|r|] && IsBlank(t[|r|..])
    && (r == [] || !IsSpace(r[|r| - 1]))
  }

  /** What is left is a slice of `s` with only white space around it. */
  lemma SliceBetweenBlanks(s: string, t: string, r: string)
    requires TrimmedFrom(s, t, r)
    ensures |r| <= |s|
    ensures BlankAround(s, |s| - |t|, |s| - |t| + |r|) && r == s[|s| - |t|..|s| - |t| + |r|]
  {
    var a, b := |s| - |t|, |s| - |t| + |r|;
    assert s[a..b] == r;
    assert s[b..] == t[|r|..];
  }

  lemma TrimBlank(s: string)
    ensures TrimEnd(TrimStart(s)) == [] <==> IsBlank(s)
  {
    var t := TrimStart(s);
    if TrimEnd(t) == [] {
      assert t[0..] == t;
      BlankJoin(s, |s| - |t|);
    }
    if IsBlank(s) {
      BlankTrimsAway(s);
    }
  }

  lemma BlankJoin(s: string, k: nat)
    requires k <= |s| && IsBlank(s[..k]) && IsBlank(s[k..])
    ensures IsBlank(s)
  {
    forall i | 0 <= i < |s| ensures IsSpace(s[i]) {
      if i < k { assert s[..k][i] == s[i]; } else { assert s[k..][i - k] == s[i]; }
    }
  }

  lemma {:induction false} BlankTrimsAway(s: string)
    requires IsBlank(s)
    ensures TrimStart(s) == []
    decreases |s|
  {
    if |s| > 0 {
      assert IsSpace(s[0]);
      BlankTrimsAway(s[1..]);
    }
  }

  /** JavaScript's `!text || text.trim() === ''` for a body field. */
  predicate MissingText(text: Option<string>) {
    text.None? || Trim(text.value) == ""
  }

  function LowerChar(c: char): char {
    if 'A' <= c <= 'Z' then (c as int + 32) as char else c
  }

  function UpperChar(c: char): char {
    if 'a' <= c <= 'z' then (c as int - 32) as char else c
  }

  /** `toLowerCase`, restricted to the ASCII letters. */
  function LowerAscii(s: string): (r: string)
    ensures |r| == |s|
    ensures forall i :: 0 <= i < |r| ==> !('A' <= r[i] <= 'Z')
    ensures forall i :: 0 <= i < |s| && !('A' <= s[i] <= 'Z') ==> r[i] == s[i]
    ensures forall i :: 0 <= i < |s| && 'A' <= s[i] <= 'Z' ==> r[i] as int == s[i] as int + 32
  {
    seq(|s|, i requires 0 <= i < |s| => LowerChar(s[i]))
  }

  /** `s.charAt(0).toUpperCase() + s.slice(1)`, ASCII letters only. */
  function Capitalize(s: string): (r: string)
    ensures |r| == |s|
    ensures |s| > 0 ==> r[1..] == s[1..] && !('a' <= r[0] <= 'z')
    ensures |s| > 0 && !('a' <= s[0] <= 'z') ==> r == s
    ensures |s| > 0 && 'a' <= s[0] <= 'z' ==> r[0] as int == s[0] as int - 32
  {
    if |s| == 0 then "" else [UpperChar(s[0])] + s[1..]
  }

  /** `s.split(sep)`: the pieces between separators; never empty. */
  function Split(s: string, sep: char): (parts: seq<string>)
    ensures |parts| >= 1
    ensures forall i :: 0 <= i < |parts| ==> sep !in parts[i]
    decreases |s|
  {
    if |s| == 0 then [""]
    else
      var rest := Split(s[1..], sep);
      if s[0] == sep then [""] + rest
      else [[s[0]] + rest[0]] + rest[1..]
  }

  /** `parts.join(sep)`. */
  function Join(parts: seq<string>, sep: char): string
    requires |parts| >= 1
    decreases |parts|
  {
    if |parts| == 1 then parts[0] else parts[0] + [sep] + Join(parts[1..], sep)
  }

  /** Splitting and joining again gives back the string. */
  lemma {:induction false} JoinSplit(s: string, sep: char)
    ensures Join(Split(s, sep), sep) == s
    decreases |s|
  {
    if |s| > 0 {
      var rest := Split(s[1..], sep);
      JoinSplit(s[1..], sep);
      if s[0] == sep {
        assert Split(s, sep)[1..] == rest;
      } else if |rest| == 1 {
        assert Split(s, sep) == [[s[0]] + rest[0]];
      } else {
        var parts := Split(s, sep);
        assert parts[1..] == rest[1..];
        assert Join(rest, sep) == rest[0] + [sep] + Join(rest[1..], sep);
        assert s == [s[0]] + s[1..];
      }
    }
  }

  /** A string without the separator splits into itself alone. */
  lemma {:induction false} SplitWithoutSeparator(s: string, sep: char)
    requires sep !in s
    ensures Split(s, sep) == [s]
    decreases |s|
  {
    if |s| > 0 {
      SplitWithoutSeparator(s[1..], sep);
      assert s == [s[0]] + s[1..];
    }
  }

  lemma {:induction false} SplitAfterPiece(a: string, b: string, sep: char)
    requires sep !in a
    ensures Split(a + [sep] + b, sep) == [a] + Split(b, sep)
    decreases |a|
  {
    if |a| == 0 {
      assert a + [sep] + b == [sep] + b;
      assert ([sep] + b)[1..] == b;
    } else {
      var s := a + [sep] + b;
      assert s[1..] == a[1..] + [sep] + b;
      SplitAfterPiece(a[1..], b, sep);
      assert [a[0]] + a[1..] == a;
    }
  }

  /** Joining pieces free of the separator and splitting again gives back the pieces. */
  lemma {:induction false} SplitJoin(parts: seq<string>, sep: char)
    requires |parts| >= 1
    requires forall i :: 0 <= i < |parts| ==> sep !in parts[i]
    ensures Split(Join(parts, sep), sep) == parts
    decreases |parts|
  {
    if |parts| == 1 {
      SplitWithoutSeparator(parts[0], sep);
    } else {
      SplitJoin(parts[1..], sep);
      SplitAfterPiece(parts[0], Join(parts[1..], sep), sep);
      assert [parts[0]] + parts[1..] == parts;
    }
  }

  /** `filter(Boolean)` over strings: drop the empty ones, keep the order. */
  function NonEmpty(parts: seq<string>): (r: seq<string>)
    ensures |r| <= |parts|
    ensures forall i :: 0 <= i < |r| ==> r[i] != ""
    ensures forall x :: x in r <==> x in parts && x != ""
    ensures (forall i :: 0 <= i < |parts| ==> parts[i] != "") ==> r == parts
  {
    if |parts| == 0 then []
    else if parts[0] == "" then NonEmpty(parts[1..])
    else [parts[0]] + NonEmpty(parts[1..])
  }

  /** `path.split('/').filter(Boolean)`. */
  function Segments(path: string): (segs: seq<string>)
    ensures forall i :: 0 <= i < |segs| ==> segs[i] != "" && '/' !in segs[i]
    ensures forall x :: x in segs <==> x in Split(path, '/') && x != ""
  {
    var parts := Split(path, '/');
    NonEmptyFromParts(parts, '/');
    NonEmpty(parts)
  }

  lemma {:induction false} NonEmptyFromParts(parts: seq<string>, sep: char)
    requires forall i :: 0 <= i < |parts| ==> sep !in parts[i]
    ensures forall i :: 0 <= i < |NonEmpty(parts)| ==> sep !in NonEmpty(parts)[i]
    decreases |parts|
  {
    if |parts| > 0 {
      NonEmptyFromParts(parts[1..], sep);
    }
  }

  /** Filtering a concatenation filters each half and keeps them in order. */
  lemma {:induction false} NonEmptyAppend(a: seq<string>, b: seq<string>)
    ensures NonEmpty(a + b) == NonEmpty(a) + NonEmpty(b)
    decreases |a|
  {
    if |a| > 0 {
      NonEmptyAppend(a[1..], b);
      assert (a + b)[1..] == a[1..] + b;
    } else {
      assert a + b == b;
    }
  }

  /**
   * Any path written as slash-free pieces joined by '/', empty pieces
   * included (a leading, doubled or trailing slash), has exactly the
   * non-empty pieces, in order, as its segments.
   */
  lemma SegmentsOfJoin(parts: seq<string>)
    requires |parts| >= 1
    requires forall i :: 0 <= i < |parts| ==> '/' !in parts[i]
    ensures Segments(Join(parts, '/')) == NonEmpty(parts)
  {
    SplitJoin(parts, '/');
  }

  /** Joining one more piece appends the separator and the piece. */
  lemma {:induction false} JoinAppend(parts: seq<string>, x: string, sep: char)
    requires |parts| >= 1
    ensures Join(parts + [x], sep) == Join(parts, sep) + [sep] + x
    decreases |parts|
  {
    if |parts| > 1 {
      JoinAppend(parts[1..], x, sep);
      assert (parts + [x])[1..] == parts[1..] + [x];
    }
  }

  /** A trailing slash does not change the segments of a path. */
  lemma SegmentsTrailingSlash(path: string)
    ensures Segments(path + "/") == Segments(path)
  {
    var parts := Split(path, '/');
    JoinSplit(path, '/');
    JoinAppend(parts, "", '/');
    assert path + "/" == Join(parts + [""], '/');
    SegmentsOfJoin(parts + [""]);
    NonEmptyAppend(parts, [""]);
    assert NonEmpty([""]) == [];
    assert NonEmpty(parts) + [] == NonEmpty(parts);
  }

  /** The absolute path "/s1/s2/.../sk" splits back into its segments. */
  lemma SegmentsOfPath(segs: seq<string>)
    requires |segs| >= 1
    requires forall i :: 0 <= i < |segs| ==> segs[i] != "" && '/' !in segs[i]
    ensures Segments("/" + Join(segs, '/')) == segs
  {
    SplitJoin([""] + segs, '/');
    assert Join([""] + segs, '/') == "" + "/" + Join(segs, '/');
    assert "" + "/" + Join(segs, '/') == "/" + Join(segs, '/');
    assert NonEmpty([""] + segs) == NonEmpty(segs);
  }

  /** `s.split('/').pop()`: the text after the last slash. */
  function LastSegment(s: string): (r: string)
    ensures '/' !in r
    ensures |r| <= |s| && r == s[|s| - |r|..]
    ensures |r| < |s| ==> s[|s| - |r| - 1] == '/'
  {
    if |s| == 0 || s[|s| - 1] == '/' then ""
    else
      var r := LastSegment(s[..|s| - 1]);
      assert s[..|s| - 1][|s| - 1 - |r|..] + [s[|s| - 1]] == s[|s| - 1 - |r|..];
      r + [s[|s| - 1]]
  }

  /** `sub` occurs in `s` starting at position `k`. */
  predicate OccursAt(s: string, sub: string, k: int) {
    0 <= k && k + |sub| <= |s| && s[k..k + |sub|] == sub
  }

  /** `s.includes(sub)`: true exactly when `sub` occurs somewhere in `s`. */
  function Contains(s: string, sub: string): (b: bool)
    ensures b <==> exists k :: OccursAt(s, sub, k)
    decreases |s|
  {
    if |s| < |sub| then false
    else if s[..|sub|] == sub then assert OccursAt(s, sub, 0); true
    else
      var b := Contains(s[1..], sub);
      OccursShift(s, sub);
      b
  }

  /** Past a non-matching first position, an occurrence in `s` is one in `s[1..]`, shifted. */
  lemma OccursShift(s: string, sub: string)
    requires |s| >= |sub| && s[..|sub|] != sub
    ensures (exists k :: OccursAt(s, sub, k)) <==> exists k :: OccursAt(s[1..], sub, k)
  {
    forall k | OccursAt(s, sub, k) ensures OccursAt(s[1..], sub, k - 1) {
      assert k != 0;
      assert s[1..][k - 1..k - 1 + |sub|] == s[k..k + |sub|];
    }
    forall k | OccursAt(s[1..], sub, k) ensures OccursAt(s, sub, k + 1) {
      assert s[1..][k..k + |sub|] == s[k + 1..k + 1 + |sub|];
    }
  }

  /** The value of a digit in radix 36; 36 for anything that is not a digit. */
  function DigitValue(c: char): (d: nat)
    ensures d <= 36
  {
    if '0' <= c <= '9' then c as int - '0' as int
    else if 'a' <= c <= 'z' then c as int - 'a' as int + 10
    else if 'A' <= c <= 'Z' then c as int - 'A' as int + 10
    else 36
  }

  /** The longest prefix made of digits of the given radix. */
  function DigitPrefix(s: string, radix: nat): (r: string)
    ensures |r| <= |s| && r == s[..|r|]
    ensures forall i :: 0 <= i < |r| ==> DigitValue(r[i]) < radix
    ensures |r| < |s| ==> DigitValue(s[|r|]) >= radix
  {
    if |s| == 0 || DigitValue(s[0]) >= radix then ""
    else [s[0]] + DigitPrefix(s[1..], radix)
  }

  /** The number a string of digits denotes, most significant first. */
  function DigitsValue(ds: string, radix: nat): nat
  {
    if |ds| == 0 then 0
    else DigitsValue(ds[..|ds| - 1], radix) * radix + DigitValue(ds[|ds| - 1])
  }

  /**
   * `parseInt(s)` with no radix: leading white space, an optional sign, a
   * "0x"/"0X" prefix selecting radix 16, then the longest run of digits;
   * `None` is NaN (no digit at all).
   */
  function ParseInt(s: string): Option<int>
  {
    ParseSigned(TrimStart(s))
  }

  function ParseSigned(t: string): Option<int>
  {
    if |t| > 0 && t[0] == '-' then
      match ParseUnsigned(t[1..])
      case None => None
      case Some(v) => Some(-v)
    else if |t| > 0 && t[0] == '+' then ParseUnsigned(t[1..])
    else ParseUnsigned(t)
  }

  function ParseUnsigned(u: string): Option<int>
  {
    if |u| >= 2 && u[0] == '0' && (u[1] == 'x' || u[1] == 'X') then ParseDigits(u[2..], 16)
    else ParseDigits(u, 10)
  }

  function ParseDigits(u: string, radix: nat): Option<int>
  {
    var digits := DigitPrefix(u, radix);
    if digits == "" then None else Some(DigitsValue(digits, radix))
  }

  function DigitChar(d: nat): char
    requires d < 10
  {
    ('0' as int + d) as char
  }

  /** The decimal text of a count, as a template literal prints it. */
  function NatToString(n: nat): (s: string)
    ensures |s| >= 1
    ensures forall i :: 0 <= i < |s| ==> '0' <= s[i] <= '9'
    ensures s[0] == '0' ==> n == 0
    decreases n
  {
    if n < 10 then [DigitChar(n)] else NatToString(n / 10) + [DigitChar(n % 10)]
  }

  lemma {:induction false} DecimalValue(n: nat)
    ensures DigitsValue(NatToString(n), 10) == n
    decreases n
  {
    var s := NatToString(n);
    if n >= 10 {
      DecimalValue(n / 10);
      assert s[..|s| - 1] == NatToString(n / 10);
    }
  }

  lemma {:induction false} DigitPrefixStops(ds: string, rest: string, radix: nat)
    requires forall i :: 0 <= i < |ds| ==> DigitValue(ds[i]) < radix
    requires rest == [] || DigitValue(rest[0]) >= radix
    ensures DigitPrefix(ds + rest, radix) == ds
    decreases |ds|
  {
    if |ds| > 0 {
      DigitPrefixStops(ds[1..], rest, radix);
      assert (ds + rest)[1..] == ds[1..] + rest;
      assert [ds[0]] + ds[1..] == ds;
    } else {
      assert ds + rest == rest;
    }
  }

  /**
   * `parseInt` reads back a rendered count followed by any text that does
   * not continue the number.
   */
  lemma ParseIntReadsDecimal(n: nat, rest: string)
    requires rest == [] || (DigitValue(rest[0]) >= 10 && rest[0] != 'x' && rest[0] != 'X')
    ensures ParseInt(NatToString(n) + rest) == Some(n)
  {
    var d := NatToString(n);
    var s := d + rest;
    assert s[0] == d[0];
    if |s| >= 2 && s[0] == '0' {
      assert |d| == 1;
      assert s[1] == rest[0];
    }
    ParseDecimalStart(s);
    forall i | 0 <= i < |d| ensures DigitValue(d[i]) < 10 { }
    DigitPrefixStops(d, rest, 10);
    DecimalValue(n);
  }

  /** A string starting with a decimal digit and no "0x" is read in radix 10, as is. */
  lemma ParseDecimalStart(s: string)
    requires |s| > 0 && '0' <= s[0] <= '9'
    requires !(|s| >= 2 && s[0] == '0' && (s[1] == 'x' || s[1] == 'X'))
    ensures ParseInt(s) == ParseDigits(s, 10)
  {
    assert !IsSpace(s[0]);
    assert TrimStart(s) == s;
  }
}
