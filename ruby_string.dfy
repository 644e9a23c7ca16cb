/**
 * The parts of Ruby's String API that the core relies on, on `seq<char>`:
 * `split(';')`, `Array#join(';')`, `strip`, ASCII `upcase`/`downcase`, and
 * `Integer#to_s` in base 10.
 */
module RubyString {

  type String = seq<char>

  // ---------------------------------------------------------------------------
  // split(';') and join(';')
  // ---------------------------------------------------------------------------

  const Separator: char := ';'

  predicate NoSeparator(s: String) {
    Separator !in s
  }

  /** Every field between separators, empty ones included (split with limit -1). */
  function Fields(s: String): (r: seq<String>)
    ensures |r| >= 1
    decreases |s|
  {
    if s == [] then [[]]
    else if s[0] == Separator then [[]] + Fields(s[1..])
    else
      var rest := Fields(s[1..]);
      [[s[0]] + rest[0]] + rest[1..]
  }

  /** Ruby drops the empty fields at the end of a split (and so `"".split(';')` is `[]`). */
  function DropTrailingEmpty(xs: seq<String>): (r: seq<String>)
    ensures |r| <= |xs| && r == xs[..|r|]
    ensures r == [] || r[|r| - 1] != []
    ensures forall i :: |r| <= i < |xs| ==> xs[i] == []
  {
    if xs == [] then []
    else if xs[|xs| - 1] == [] then DropTrailingEmpty(xs[..|xs| - 1])
    else xs
  }

  /** `s.split(';')` */
  function Split(s: String): seq<String> {
    DropTrailingEmpty(Fields(s))
  }

  /** `xs.join(';')` */
  function Join(xs: seq<String>): (r: String)
  {
    if xs == [] then []
    else if |xs| == 1 then xs[0]
    else xs[0] + [Separator] + Join(xs[1..])
  }

  lemma {:induction false} FieldsOfPlain(a: String)
    requires NoSeparator(a)
    ensures Fields(a) == [a]
  {
    if a != [] {
      assert a[0] != Separator && a[0] == a[..1][0];
      FieldsOfPlain(a[1..]);
      assert [a[0]] + a[1..] == a;
    }
  }

  lemma {:induction false} FieldsOfSeparated(a: String, t: String)
    requires NoSeparator(a)
    ensures Fields(a + [Separator] + t) == [a] + Fields(t)
  {
    if a == [] {
      assert a + [Separator] + t == [Separator] + t;
      assert ([Separator] + t)[1..] == t;
    } else {
      assert (a + [Separator] + t)[1..] == a[1..] + [Separator] + t;
      FieldsOfSeparated(a[1..], t);
      assert [a[0]] + a[1..] == a;
    }
  }

  /** Splitting a join gives back every field, as long as no field holds a separator. */
  lemma {:induction false} FieldsOfJoin(xs: seq<String>)
    requires xs != []
    requires forall i :: 0 <= i < |xs| ==> NoSeparator(xs[i])
    ensures Fields(Join(xs)) == xs
  {
    if |xs| == 1 {
      FieldsOfPlain(xs[0]);
    } else {
      FieldsOfSeparated(xs[0], Join(xs[1..]));
      FieldsOfJoin(xs[1..]);
    }
  }

  /**
   * `xs.join(';').split(';') == xs` when no element holds a `;` and the last
   * one is not empty (Ruby would drop it).
   */
  lemma SplitJoin(xs: seq<String>)
    requires forall i :: 0 <= i < |xs| ==> NoSeparator(xs[i])
    requires xs == [] || xs[|xs| - 1] != []
    ensures Split(Join(xs)) == xs
  {
    if xs != [] {
      FieldsOfJoin(xs);
    }
  }

  // ---------------------------------------------------------------------------
  // strip
  // ---------------------------------------------------------------------------

  /** The characters `String#strip` removes: NUL, tab, LF, VT, FF, CR and space. */
  predicate IsStripSpace(c: char) {
    c == '\0' || c == '\t' || c == '\n' || c == '\U{000B}' || c == '\U{000C}' || c == '\r' || c == ' '
  }

  function LStrip(s: String): (r: String)
    ensures |r| <= |s| && r == s[|s| - |r|..]
    ensures forall i :: 0 <= i < |s| - |r| ==> IsStripSpace(s[i])
    ensures r == [] || !IsStripSpace(r[0])
  {
    if s != [] && IsStripSpace(s[0]) then LStrip(s[1..]) else s
  }

  function RStrip(s: String): (r: String)
    ensures |r| <= |s| && r == s[..|r|]
    ensures forall i :: |r| <= i < |s| ==> IsStripSpace(s[i])
    ensures r == [] || !IsStripSpace(r[|r| - 1])
  {
    if s != [] && IsStripSpace(s[|s| - 1]) then RStrip(s[..|s| - 1]) else s
  }

  /** `r` is the slice `s[i..j]` and everything outside it is whitespace. */
  ghost predicate StripSlice(s: String, r: String, i: int, j: int) {
    && 0 <= i <= j <= |s|
    && r == s[i..j]
    && (forall k :: 0 <= k < i ==> IsStripSpace(s[k]))
    && (forall k :: j <= k < |s| ==> IsStripSpace(s[k]))
    && (r == [] || (!IsStripSpace(r[0]) && !IsStripSpace(r[|r| - 1])))
  }

  /** `r` is `s` without its leading and trailing whitespace. */
  ghost predicate StrippedFrom(s: String, r: String) {
    exists i, j :: StripSlice(s, r, i, j)
  }

  /** No whitespace at either end. */
  predicate Trimmed(s: String) {
    s == [] || (!IsStripSpace(s[0]) && !IsStripSpace(s[|s| - 1]))
  }

  /** `s.strip` */
  function Strip(s: String): (r: String)
    ensures Trimmed(r)
  {
    var l := LStrip(s);
    var r := RStrip(l);
    assert r != [] ==> r[0] == l[0];
    r
  }

  /** What survives a strip is the input without its leading and trailing whitespace. */
  lemma StripIsSlice(s: String)
    ensures StrippedFrom(s, Strip(s))
  {
    var l := LStrip(s);
    var r := RStrip(l);
    var i := |s| - |l|;
    var j := i + |r|;
    assert r == s[i..j] by {
      assert l == s[i..];
      assert r == l[..|r|];
    }
    forall k | j <= k < |s| ensures IsStripSpace(s[k]) {
      assert s[k] == l[k - i];
    }
    assert StripSlice(s, r, i, j);
  }

  /** A string with no whitespace at either end is its own strip. */
  lemma StripTrimmed(s: String)
    requires Trimmed(s)
    ensures Strip(s) == s
  {
  }

  lemma SliceUnique(s: String, r1: String, i1: int, j1: int, r2: String, i2: int, j2: int)
    requires StripSlice(s, r1, i1, j1) && StripSlice(s, r2, i2, j2)
    ensures r1 == r2
  {
    if r1 != [] && r2 != [] {
      assert s[i1] == r1[0] && s[j1 - 1] == r1[|r1| - 1];
      assert s[i2] == r2[0] && s[j2 - 1] == r2[|r2| - 1];
      assert i1 == i2 && j1 == j2;
    }
  }

  /** Only one part of the input can survive a strip. */
  lemma StrippedFromUnique(s: String, r1: String, r2: String)
    requires StrippedFrom(s, r1) && StrippedFrom(s, r2)
    ensures r1 == r2
  {
    var i1, j1 :| StripSlice(s, r1, i1, j1);
    var i2, j2 :| StripSlice(s, r2, i2, j2);
    SliceUnique(s, r1, i1, j1, r2, i2, j2);
  }

  /** Stripping twice is stripping once. */
  lemma StripIdempotent(s: String)
    ensures Strip(Strip(s)) == Strip(s)
  {
    var r := Strip(s);
    StripTrimmed(r);
  }

  predicate AllStripSpace(s: String) {
    forall k :: 0 <= k < |s| ==> IsStripSpace(s[k])
  }

  /** Whitespace added at either end makes no difference to a strip. */
  lemma StripPadded(a: String, t: String, b: String)
    requires AllStripSpace(a) && AllStripSpace(b)
    ensures Strip(a + t + b) == Strip(t)
  {
    var r := Strip(t);
    StripIsSlice(t);
    var i, j :| StripSlice(t, r, i, j);
    PaddedSlice(a, t, b, r, i, j);
    StripIsSlice(a + t + b);
    StrippedFromUnique(a + t + b, Strip(a + t + b), r);
  }

  /** A strip slice of `t` is one of `t` padded with whitespace, shifted by the padding. */
  lemma PaddedSlice(a: String, t: String, b: String, r: String, i: int, j: int)
    requires AllStripSpace(a) && AllStripSpace(b) && StripSlice(t, r, i, j)
    ensures StripSlice(a + t + b, r, |a| + i, |a| + j)
  {
    var s := a + t + b;
    assert s[|a|..|a| + |t|] == t;
    assert r == s[|a| + i..|a| + j];
    forall k | 0 <= k < |a| + i ensures IsStripSpace(s[k]) {
      if k < |a| { assert s[k] == a[k]; } else { assert s[k] == t[k - |a|]; }
    }
    forall k | |a| + j <= k < |s| ensures IsStripSpace(s[k]) {
      if k < |a| + |t| { assert s[k] == t[k - |a|]; } else { assert s[k] == b[k - |a| - |t|]; }
    }
  }

  // ---------------------------------------------------------------------------
  // ASCII case mapping
  // ---------------------------------------------------------------------------

  predicate IsUpper(c: char) { 'A' <= c <= 'Z' }
  predicate IsLower(c: char) { 'a' <= c <= 'z' }

  function UpcaseChar(c: char): (r: char)
    ensures !IsLower(r)
    ensures !IsLower(c) ==> r == c
  {
    if IsLower(c) then (c as int - 32) as char else c
  }

  function DowncaseChar(c: char): (r: char)
    ensures !IsUpper(r)
    ensures !IsUpper(c) ==> r == c
  {
    if IsUpper(c) then (c as int + 32) as char else c
  }

  /** `s.upcase` on ASCII letters. */
  function Upcase(s: String): (r: String)
    ensures |r| == |s|
    ensures forall i :: 0 <= i < |s| ==> r[i] == UpcaseChar(s[i])
  {
    seq(|s|, i requires 0 <= i < |s| => UpcaseChar(s[i]))
  }

  /** `s.downcase` on ASCII letters. */
  function Downcase(s: String): (r: String)
    ensures |r| == |s|
    ensures forall i :: 0 <= i < |s| ==> r[i] == DowncaseChar(s[i])
  {
    seq(|s|, i requires 0 <= i < |s| => DowncaseChar(s[i]))
  }

  // ---------------------------------------------------------------------------
  // Integer#to_s
  // ---------------------------------------------------------------------------

  predicate IsDigit(c: char) { '0' <= c <= '9' }

  function DigitChar(d: nat): (c: char)
    requires d < 10
    ensures IsDigit(c)
  {
    ('0' as int + d) as char
  }

  /** Base-10 digits of `n` without leading zeros. */
  function Decimal(n: nat): (r: String)
    ensures |r| >= 1
    ensures forall i :: 0 <= i < |r| ==> IsDigit(r[i])
    ensures n < 10 <==> |r| == 1
    ensures 10 <= n < 100 ==> |r| == 2
  {
    if n < 10 then [DigitChar(n)] else Decimal(n / 10) + [DigitChar(n % 10)]
  }

  /** The value of a string of digits. */
  function DigitsValue(s: String): nat
    requires forall i :: 0 <= i < |s| ==> IsDigit(s[i])
  {
    if s == [] then 0
    else
      assert IsDigit(s[|s| - 1]);
      DigitsValue(s[..|s| - 1]) * 10 + (s[|s| - 1] as int - '0' as int) as nat
  }

  /** Reading the digits back gives the number. */
  lemma {:induction false} DecimalValue(n: nat)
    ensures DigitsValue(Decimal(n)) == n
  {
    if n >= 10 {
      var d := Decimal(n);
      assert d[..|d| - 1] == Decimal(n / 10);
      DecimalValue(n / 10);
    }
  }

  /** `n.to_s` for any integer. */
  function IntToS(n: int): (r: String)
    ensures |r| >= 1
    ensures n >= 0 ==> r == Decimal(n)
    ensures n < 0 ==> r[0] == '-' && r[1..] == Decimal(-n)
  {
    if n < 0 then "-" + Decimal(-n) else Decimal(n)
  }

  // ---------------------------------------------------------------------------
  // gsub(/\s+/, ...)
  // ---------------------------------------------------------------------------

  /** The characters of the regular-expression class `\s`: space, tab, LF, VT, FF and CR. */
  predicate IsRegexSpace(c: char) {
    c == ' ' || c == '\t' || c == '\n' || c == '\U{000B}' || c == '\U{000C}' || c == '\r'
  }

  predicate NoRegexSpace(s: String) {
    forall i :: 0 <= i < |s| ==> !IsRegexSpace(s[i])
  }

  /** `s` without its leading run of `\s` characters. */
  function DropSpaceRun(s: String): (r: String)
    ensures |r| <= |s| && r == s[|s| - |r|..]
    ensures forall i :: 0 <= i < |s| - |r| ==> IsRegexSpace(s[i])
    ensures r == [] || !IsRegexSpace(r[0])
  {
    if s != [] && IsRegexSpace(s[0]) then DropSpaceRun(s[1..]) else s
  }

  /** `s.gsub(/\s+/, sub)` for a one-character replacement `sub`. */
  function ReplaceSpaceRuns(s: String, sub: char): (r: String)
    ensures |r| <= |s|
    ensures forall i :: 0 <= i < |r| ==> r[i] == sub || (r[i] in s && !IsRegexSpace(r[i]))
    ensures NoRegexSpace(s) ==> r == s
    decreases |s|
  {
    if s == [] then []
    else if IsRegexSpace(s[0]) then
      var rest := DropSpaceRun(s[1..]);
      assert forall c :: c in rest ==> c in s by {
        forall c | c in rest ensures c in s {
          var k :| 0 <= k < |rest| && rest[k] == c;
          assert s[|s| - |rest| + k] == c;
        }
      }
      [sub] + ReplaceSpaceRuns(rest, sub)
    else
      assert NoRegexSpace(s) ==> NoRegexSpace(s[1..]) by {
        if NoRegexSpace(s) {
          forall i | 0 <= i < |s[1..]| ensures !IsRegexSpace(s[1..][i]) {
            assert s[1..][i] == s[i + 1];
          }
        }
      }
      [s[0]] + ReplaceSpaceRuns(s[1..], sub)
  }

  /** Each run of whitespace becomes exactly one replacement character. */
  lemma {:induction false} ReplaceSpaceRunsOfPadded(a: String, w: String, b: String, sub: char)
    requires NoRegexSpace(a) && w != [] && (forall i :: 0 <= i < |w| ==> IsRegexSpace(w[i])) && (b == [] || !IsRegexSpace(b[0]))
    ensures ReplaceSpaceRuns(a + w + b, sub) == ReplaceSpaceRuns(a, sub) + [sub] + ReplaceSpaceRuns(b, sub)
    decreases |a|
  {
    if a == [] {
      assert a + w + b == w + b;
      assert DropSpaceRun((w + b)[1..]) == b by {
        DropRunOf(w[1..], b);
        assert (w + b)[1..] == w[1..] + b;
      }
    } else {
      assert (a + w + b)[1..] == a[1..] + w + b;
      assert NoRegexSpace(a[1..]) by {
        forall i | 0 <= i < |a[1..]| ensures !IsRegexSpace(a[1..][i]) {
          assert a[1..][i] == a[i + 1];
        }
      }
      ReplaceSpaceRunsOfPadded(a[1..], w, b, sub);
      assert !IsRegexSpace(a[0]);
    }
  }

  lemma {:induction false} DropRunOf(w: String, b: String)
    requires (forall i :: 0 <= i < |w| ==> IsRegexSpace(w[i])) && (b == [] || !IsRegexSpace(b[0]))
    ensures DropSpaceRun(w + b) == b
    decreases |w|
  {
    if w != [] {
      assert (w + b)[1..] == w[1..] + b;
      assert IsRegexSpace(w[0]);
      DropRunOf(w[1..], b);
    } else {
      assert w + b == b;
    }
  }
}
