/**
 * The JavaScript string primitives the handlers and pages rely on:
 * `trim`, `split` on one character, `replace(/c/g, '')`, integer `toString`
 * and `padStart`, together with a decimal reader that inverts `toString`.
 */
module JsString {
  import opened Wrappers

  /** The WhiteSpace and LineTerminator code points that `String.prototype.trim` removes. */
  predicate IsSpace(c: char) {
    || c == ' ' || c == '\t' || c == '\n' || c == '\r' || c == '\U{B}' || c == '\U{C}'
    || c == '\U{A0}' || c == '\U{1680}' || ('\U{2000}' <= c <= '\U{200A}')
    || c == '\U{2028}' || c == '\U{2029}' || c == '\U{202F}' || c == '\U{205F}'
    || c == '\U{3000}' || c == '\U{FEFF}'
  }

  predicate AllSpace(s: string) {
    forall i :: 0 <= i < |s| ==> IsSpace(s[i])
  }

  /** `s` with its leading white space removed: a suffix of `s`. */
  function TrimStart(s: string): (r: string)
    ensures |r| <= |s| && r == s[|s| - |r|..]
    ensures AllSpace(s[..|s| - |r|])
    ensures r != [] ==> !IsSpace(r[0])
  {
    if s != [] && IsSpace(s[0]) then
      var r := TrimStart(s[1..]);
      assert s[..|s| - |r|] == [s[0]] + s[1..][..|s| - 1 - |r|];
      AllSpaceConcat([s[0]], s[1..][..|s| - 1 - |r|]);
      r
    else s
  }

  /** `s` with its trailing white space removed: a prefix of `s`. */
  function TrimEnd(s: string): (r: string)
    ensures |r| <= |s| && r == s[..|r|]
    ensures AllSpace(s[|r|..])
    ensures r != [] ==> !IsSpace(r[|r| - 1])
  {
    if s != [] && IsSpace(s[|s| - 1]) then TrimEnd(s[..|s| - 1]) else s
  }

  /**
   * `r` is `s` with its white-space margins cut off: a slice of `s` with
   * only white space on either side, neither starting nor ending in it.
   */
  ghost predicate IsTrimOf(s: string, r: string) {
    && (r != [] ==> !IsSpace(r[0]) && !IsSpace(r[|r| - 1]))
    && exists i :: MarginsAt(s, r, i)
  }

  /** `r` sits in `s` at `i`, with only white space before and after it. */
  predicate MarginsAt(s: string, r: string, i: int) {
    0 <= i <= |s| - |r| && r == s[i..i + |r|] && AllSpace(s[..i]) && AllSpace(s[i + |r|..])
  }

  /** `String.prototype.trim`. */
  function Trim(s: string): (r: string)
    ensures |r| <= |s|
    ensures r == [] <==> AllSpace(s)
    ensures r != [] ==> !IsSpace(r[0]) && !IsSpace(r[|r| - 1])
  {
    TrimEnds(s);
    TrimEnd(TrimStart(s))
  }

  lemma TrimEnds(s: string)
    ensures var r := TrimEnd(TrimStart(s));
      && (r == [] <==> AllSpace(s))
      && (r != [] ==> !IsSpace(r[0]) && !IsSpace(r[|r| - 1]))
  {
    var t := TrimStart(s);
    var k := |s| - |t|;
    AllSpaceSplit(s, k);
    assert s[k..] == t && AllSpace(s[..k]);
    TrimEndEmpty(t);
    assert AllSpace(s) <==> AllSpace(t);
    TrimEndFirst(t);
  }

  /** A text is all white space exactly when both sides of any cut are. */
  lemma AllSpaceSplit(s: string, k: nat)
    requires k <= |s|
    ensures AllSpace(s) <==> AllSpace(s[..k]) && AllSpace(s[k..])
  {
    assert s == s[..k] + s[k..];
    AllSpaceConcat(s[..k], s[k..]);
  }

  /** Slices of a suffix are slices of the whole. */
  lemma SuffixSlices<T>(s: seq<T>, i: nat, n: nat)
    requires i + n <= |s|
    ensures s[i..][..n] == s[i..i + n] && s[i..][n..] == s[i + n..]
  {
  }

  /** Trimming the end leaves nothing exactly when the text is all white space. */
  lemma TrimEndEmpty(t: string)
    ensures TrimEnd(t) == [] <==> AllSpace(t)
  {
    var r := TrimEnd(t);
    assert r == [] ==> t == t[|r|..];
  }

  /** Trimming the end keeps the first character. */
  lemma TrimEndFirst(t: string)
    ensures TrimEnd(t) != [] ==> TrimEnd(t)[0] == t[0]
  {
  }

  /** `Trim` cuts exactly the white-space margins: its result is a slice of `s` with only white space around it. */
  lemma TrimMargins(s: string)
    ensures IsTrimOf(s, Trim(s))
  {
    var t := TrimStart(s);
    var r := TrimEnd(t);
    var i := |s| - |t|;
    SuffixSlices(s, i, |r|);
    assert MarginsAt(s, r, i);
  }

  /** The margins determine the trimmed text: whatever `IsTrimOf` admits is `Trim`'s result. */
  lemma TrimIsTheOnlyTrim(s: string, r: string)
    requires IsTrimOf(s, r)
    ensures r == Trim(s)
  {
    TrimMargins(s);
    TrimsAgree(s, r, Trim(s));
  }

  lemma TrimsAgree(s: string, r: string, t: string)
    requires IsTrimOf(s, r) && IsTrimOf(s, t)
    ensures r == t
  {
    var i :| MarginsAt(s, r, i);
    var j :| MarginsAt(s, t, j);
    MarginsUnique(s, r, t, i, j);
  }

  /** Two texts, each without white space at its ends and each between white-space margins of `s`, are equal. */
  lemma MarginsUnique(s: string, r: string, t: string, i: int, j: int)
    requires MarginsAt(s, r, i) && MarginsAt(s, t, j)
    requires r != [] ==> !IsSpace(r[0]) && !IsSpace(r[|r| - 1])
    requires t != [] ==> !IsSpace(t[0]) && !IsSpace(t[|t| - 1])
    ensures r == t
  {
    EmptyBetweenMargins(s, r, i);
    EmptyBetweenMargins(s, t, j);
    NonSpaceBetweenMargins(s, r, i);
    NonSpaceBetweenMargins(s, t, j);
    if r != [] && t != [] {
      SameStart(s, r, t, i, j);
      SameStart(s, t, r, j, i);
      SameEnd(s, r, t, i, j);
      SameEnd(s, t, r, j, i);
    }
  }

  /** Nothing between two white-space margins: all of `s` is white space. */
  lemma EmptyBetweenMargins(s: string, r: string, i: int)
    requires MarginsAt(s, r, i)
    ensures r == [] ==> AllSpace(s)
  {
    assert s == s[..i] + s[i..];
    AllSpaceConcat(s[..i], s[i..]);
  }

  /** A non-space first character between the margins: `s` is not all white space. */
  lemma NonSpaceBetweenMargins(s: string, r: string, i: int)
    requires MarginsAt(s, r, i) && (r != [] ==> !IsSpace(r[0]))
    ensures r != [] ==> !AllSpace(s)
  {
    if r != [] {
      assert s[i] == r[0];
    }
  }

  /** A text that starts with non-space cannot start inside another's leading margin. */
  lemma SameStart(s: string, r: string, t: string, i: int, j: int)
    requires MarginsAt(s, r, i) && MarginsAt(s, t, j) && r != [] && !IsSpace(r[0])
    ensures j <= i
  {
    assert s[i] == r[0];
  }

  /** A text that ends with non-space cannot end inside another's trailing margin. */
  lemma SameEnd(s: string, r: string, t: string, i: int, j: int)
    requires MarginsAt(s, r, i) && MarginsAt(s, t, j) && r != [] && !IsSpace(r[|r| - 1])
    ensures i + |r| <= j + |t|
  {
    var e := i + |r|;
    var f := j + |t|;
    assert s[e - 1] == r[|r| - 1];
  }

  lemma AllSpaceConcat(a: string, b: string)
    ensures AllSpace(a + b) <==> AllSpace(a) && AllSpace(b)
  {
    var c := a + b;
    assert forall i :: 0 <= i < |a| ==> c[i] == a[i];
    assert forall i :: 0 <= i < |b| ==> c[|a| + i] == b[i];
    if AllSpace(a) && AllSpace(b) {
      forall i | 0 <= i < |c| ensures IsSpace(c[i]) {
        if i >= |a| {
          assert c[i] == b[i - |a|];
        }
      }
    }
  }

  /** Trimming twice removes nothing more. */
  lemma TrimIdempotent(s: string)
    ensures Trim(Trim(s)) == Trim(s)
  {
    var t := Trim(s);
    if t != [] {
      assert !IsSpace(t[0]) && !IsSpace(t[|t| - 1]);
      assert TrimStart(t) == t;
      assert TrimEnd(t) == t;
    } else {
      assert TrimStart(t) == [];
    }
  }

  /** `parts.join(sep)`. */
  function Join(parts: seq<string>, sep: char): string
  {
    if |parts| == 0 then ""
    else if |parts| == 1 then parts[0]
    else parts[0] + [sep] + Join(parts[1..], sep)
  }

  /** `s.split(sep)` for a one-character separator: never empty, and `"".split(',')` is `[""]`. */
  function Split(s: string, sep: char): (r: seq<string>)
    ensures |r| >= 1
    ensures forall i :: 0 <= i < |r| ==> sep !in r[i]
    ensures Join(r, sep) == s
  {
    if s == [] then [""]
    else
      var rest := Split(s[1..], sep);
      if s[0] == sep then
        assert Join([""] + rest, sep) == [sep] + Join(rest, sep) by {
          assert ([""] + rest)[1..] == rest;
        }
        [""] + rest
      else
        var r := [[s[0]] + rest[0]] + rest[1..];
        assert Join(r, sep) == [s[0]] + Join(rest, sep) by {
          if |rest| > 1 {
            assert r[1..] == rest[1..];
          }
        }
        r
  }

  /** `Split` inverts `Join` when no part contains the separator. */
  lemma {:induction false} SplitJoin(parts: seq<string>, sep: char)
    requires |parts| >= 1
    requires forall i :: 0 <= i < |parts| ==> sep !in parts[i]
    ensures Split(Join(parts, sep), sep) == parts
  {
    if |parts| == 1 {
      SplitNoSeparator(parts[0], sep);
    } else {
      SplitJoin(parts[1..], sep);
      SplitPrefix(parts[0], Join(parts[1..], sep), sep);
      assert [parts[0]] + parts[1..] == parts;
    }
  }

  /** A string without the separator splits into itself. */
  lemma {:induction false} SplitNoSeparator(s: string, sep: char)
    requires sep !in s
    ensures Split(s, sep) == [s]
  {
    if s != [] {
      SplitNoSeparator(s[1..], sep);
      assert [s[0]] + s[1..] == s;
    }
  }

  /** Splitting `a + [sep] + b` when `a` holds no separator yields `a` and then the pieces of `b`. */
  lemma {:induction false} SplitPrefix(a: string, b: string, sep: char)
    requires sep !in a
    ensures Split(a + [sep] + b, sep) == [a] + Split(b, sep)
  {
    if a == [] {
      assert (a + [sep] + b)[1..] == b;
    } else {
      assert (a + [sep] + b)[1..] == a[1..] + [sep] + b;
      SplitPrefix(a[1..], b, sep);
      assert [a[0]] + a[1..] == a;
    }
  }

  /** `s.replace(/c/g, '')`: every occurrence of `c` dropped, the rest kept in order. */
  function RemoveAll(s: string, c: char): (r: string)
    ensures c !in r
    ensures c !in s ==> r == s
    ensures forall x :: x != c ==> multiset(r)[x] == multiset(s)[x]
  {
    if s == [] then ""
    else
      assert s == [s[0]] + s[1..];
      (if s[0] == c then "" else [s[0]]) + RemoveAll(s[1..], c)
  }

  /**
   * `RemoveAll` works character by character and keeps the order: it maps a
   * concatenation to the concatenation of the parts; one `c` becomes nothing
   * and any other character stays.
   */
  lemma {:induction false} RemoveAllConcat(a: string, b: string, c: char)
    ensures RemoveAll(a + b, c) == RemoveAll(a, c) + RemoveAll(b, c)
    ensures RemoveAll([c], c) == ""
    ensures forall x :: x != c ==> RemoveAll([x], c) == [x]
  {
    RemoveAllAppend(a, b, c);
    RemoveAllOne(c, c);
    forall x | x != c ensures RemoveAll([x], c) == [x] {
      RemoveAllOne(x, c);
    }
  }

  lemma {:induction false} RemoveAllAppend(a: string, b: string, c: char)
    ensures RemoveAll(a + b, c) == RemoveAll(a, c) + RemoveAll(b, c)
  {
    if a == [] {
      assert a + b == b;
    } else {
      var ab := a + b;
      assert ab != [] && ab[0] == a[0] && ab[1..] == a[1..] + b;
      RemoveAllAppend(a[1..], b, c);
      var h := if a[0] == c then "" else [a[0]];
      var x, y := RemoveAll(a[1..], c), RemoveAll(b, c);
      assert RemoveAll(ab, c) == h + (x + y);
      assert RemoveAll(a, c) == h + x;
      ConcatAssoc(h, x, y);
    }
  }

  lemma RemoveAllOne(x: char, c: char)
    ensures RemoveAll([x], c) == if x == c then "" else [x]
  {
    assert [x][1..] == "";
  }

  predicate IsDigit(c: char) {
    '0' <= c <= '9'
  }

  predicate AllDigits(s: string) {
    forall i :: 0 <= i < |s| ==> IsDigit(s[i])
  }

  function DigitChar(d: nat): (c: char)
    requires d < 10
    ensures IsDigit(c) && c as int - '0' as int == d
  {
    ('0' as int + d) as char
  }

  /** The value of a string of decimal digits (leading zeros allowed). */
  function DecimalValue(s: string): nat
    requires AllDigits(s)
  {
    if s == [] then 0
    else DecimalValue(s[..|s| - 1]) * 10 + (s[|s| - 1] as int - '0' as int)
  }

  /** The decimal numeral of `n` that `Number.prototype.toString` produces: no leading zero. */
  function NatToString(n: nat): (r: string)
    ensures |r| >= 1 && AllDigits(r)
    ensures r[0] == '0' ==> r == "0"
    ensures DecimalValue(r) == n
  {
    if n < 10 then [DigitChar(n)]
    else
      var r := NatToString(n / 10) + [DigitChar(n % 10)];
      assert r[..|r| - 1] == NatToString(n / 10);
      r
  }

  /** `NatToString` inverts `DecimalValue` on numerals without leading zeros. */
  lemma {:induction false} NatToStringOfDecimal(s: string)
    requires |s| >= 1 && AllDigits(s)
    requires s[0] == '0' ==> s == "0"
    ensures NatToString(DecimalValue(s)) == s
  {
    if |s| > 1 {
      var p := s[..|s| - 1];
      NatToStringOfDecimal(p);
      DecimalValuePositive(p);
      var n := DecimalValue(s);
      assert n / 10 == DecimalValue(p);
      assert n % 10 == s[|s| - 1] as int - '0' as int;
      assert s == p + [s[|s| - 1]];
    } else {
      assert s == [s[0]];
    }
  }

  lemma {:induction false} DecimalValuePositive(s: string)
    requires |s| >= 1 && AllDigits(s) && s[0] != '0'
    ensures DecimalValue(s) >= 1
  {
    if |s| > 1 {
      DecimalValuePositive(s[..|s| - 1]);
    }
  }

  /** A leading zero does not change the value of a digit string. */
  lemma {:induction false} DecimalLeadingZero(s: string)
    requires AllDigits(s)
    ensures AllDigits("0" + s) && DecimalValue("0" + s) == DecimalValue(s)
  {
    if s != [] {
      DecimalLeadingZero(s[..|s| - 1]);
      assert ("0" + s)[..|"0" + s| - 1] == "0" + s[..|s| - 1];
    }
  }

  /** `Number.prototype.toString` of an integer. */
  function IntToString(n: int): (r: string)
    ensures |r| >= 1
    ensures ':' !in r
  {
    if n < 0 then "-" + NatToString(-n) else NatToString(n)
  }

  /** Reads an optionally negative decimal integer; leading zeros are accepted. */
  function ReadInt(s: string): (r: Option<int>)
    ensures r.Some? <==> (|s| >= 1 && AllDigits(s)) || (|s| >= 2 && s[0] == '-' && AllDigits(s[1..]))
  {
    if |s| >= 1 && AllDigits(s) then Some(DecimalValue(s))
    else if |s| >= 2 && s[0] == '-' && AllDigits(s[1..]) then Some(-(DecimalValue(s[1..]) as int))
    else None
  }

  /** `ReadInt` reads back what `IntToString` writes. */
  lemma IntToStringRoundTrip(n: int)
    ensures ReadInt(IntToString(n)) == Some(n)
  {
    if n < 0 {
      assert ("-" + NatToString(-n))[1..] == NatToString(-n);
    }
  }

  function Repeat(c: char, n: nat): (r: string)
    ensures |r| == n && forall i :: 0 <= i < n ==> r[i] == c
  {
    if n == 0 then "" else [c] + Repeat(c, n - 1)
  }

  /** `s.padStart(len, fill)` for a one-character fill string. */
  function PadStart(s: string, len: nat, fill: char): (r: string)
    ensures |r| == if |s| >= len then |s| else len
    ensures r[|r| - |s|..] == s
    ensures forall i :: 0 <= i < |r| - |s| ==> r[i] == fill
  {
    if |s| >= len then s else Repeat(fill, len - |s|) + s
  }
}
