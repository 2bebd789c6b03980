/** The operations of Python's `str` that the scripts rely on, over `seq<char>`:
    strip, upper/lower, substring test, join, split and replace. */
module Text {

  /** The characters Python's `str.strip()` removes (those for which `isspace()` holds). */
  predicate IsSpace(c: char) {
    || c == ' '
    || ('\t' <= c <= '\r')
    || ('\U{1C}' <= c <= '\U{1F}')
    || c == '\U{85}' || c == '\U{A0}' || c == '\U{1680}'
    || ('\U{2000}' <= c <= '\U{200A}')
    || c == '\U{2028}' || c == '\U{2029}' || c == '\U{202F}' || c == '\U{205F}' || c == '\U{3000}'
  }

  predicate IsBlank(s: string) {
    forall i :: 0 <= i < |s| ==> IsSpace(s[i])
  }

  /** Neither end of `s` is whitespace. */
  predicate IsStripped(s: string) {
    s == [] || (!IsSpace(s[0]) && !IsSpace(s[|s| - 1]))
  }

  /** Python's `s.lstrip()`: the suffix left after dropping leading whitespace. */
  function StripLeft(s: string): (r: string)
    ensures |r| <= |s| && r == s[|s| - |r|..]
    ensures forall i :: 0 <= i < |s| - |r| ==> IsSpace(s[i])
    ensures r == [] || !IsSpace(r[0])
  {
    if s != [] && IsSpace(s[0]) then
      var r := StripLeft(s[1..]);
      assert forall i :: 0 < i < |s| ==> s[i] == s[1..][i - 1];
      r
    else s
  }

  /** Python's `s.rstrip()`: the prefix left after dropping trailing whitespace. */
  function StripRight(s: string): (r: string)
    ensures |r| <= |s| && r == s[..|r|]
    ensures forall i :: |r| <= i < |s| ==> IsSpace(s[i])
    ensures r == [] || !IsSpace(r[|r| - 1])
  {
    if s != [] && IsSpace(s[|s| - 1]) then
      var r := StripRight(s[..|s| - 1]);
      assert forall i :: 0 <= i < |s| - 1 ==> s[i] == s[..|s| - 1][i];
      r
    else s
  }

  /** Python's `s.strip()`. */
  function Strip(s: string): string {
    StripRight(StripLeft(s))
  }

  /** What `strip()` leaves has no whitespace at either end and is a slice of its input. */
  lemma StripResult(s: string)
    ensures IsStripped(Strip(s))
    ensures exists i :: OccursAt(s, Strip(s), i)
  {
    var l := StripLeft(s);
    var r := StripRight(l);
    assert r == l[..|r|];
    var i := |s| - |l|;
    assert r == s[i..i + |r|];
    assert OccursAt(s, r, i);
  }

  /** `strip()` gives "" exactly for a blank string: this is how `if line.strip()` tests blankness. */
  lemma StripEmptyIffBlank(s: string)
    ensures Strip(s) == [] <==> IsBlank(s)
  {
    var l := StripLeft(s);
    if l == [] {
      assert s[..|s|] == s;
    } else {
      assert !IsSpace(l[0]);
      assert l[0] == s[|s| - |l|];
      assert !IsBlank(l);
      assert l[0..] == l;
    }
  }

  /** Stripping an already stripped string changes nothing. */
  lemma StripStripped(s: string)
    requires IsStripped(s)
    ensures Strip(s) == s
  {
  }

  /** Trailing whitespace after a stripped word is removed by `strip()`,
      as when a line read back from a file ends in "\n". */
  lemma {:induction false} StripTrailingBlank(x: string, w: string)
    requires IsStripped(x) && x != []
    requires IsBlank(w)
    ensures Strip(x + w) == x
  {
    assert StripLeft(x + w) == x + w;
    StripRightBlankSuffix(x, w);
  }

  lemma {:induction false} StripRightBlankSuffix(x: string, w: string)
    requires x == [] || !IsSpace(x[|x| - 1])
    requires IsBlank(w)
    ensures StripRight(x + w) == x
    decreases |w|
  {
    if w == [] {
      assert x + w == x;
    } else {
      var xw := x + w;
      assert xw[|xw| - 1] == w[|w| - 1];
      assert xw[..|xw| - 1] == x + w[..|w| - 1];
      StripRightBlankSuffix(x, w[..|w| - 1]);
    }
  }

  function UpperChar(c: char): char {
    if 'a' <= c <= 'z' then (c as int - 32) as char else c
  }

  function LowerChar(c: char): char {
    if 'A' <= c <= 'Z' then (c as int + 32) as char else c
  }

  /** Python's `s.upper()` on ASCII letters. */
  function Upper(s: string): (r: string)
    ensures |r| == |s|
  {
    seq(|s|, i requires 0 <= i < |s| => UpperChar(s[i]))
  }

  /** Python's `s.lower()` on ASCII letters. */
  function Lower(s: string): (r: string)
    ensures |r| == |s|
  {
    seq(|s|, i requires 0 <= i < |s| => LowerChar(s[i]))
  }

  predicate IsUpper(s: string) {
    Upper(s) == s
  }

  /** Upper-casing never turns whitespace into a letter or back, so it commutes with strip. */
  lemma UpperStrip(s: string)
    ensures Strip(Upper(s)) == Upper(Strip(s))
    ensures IsUpper(Upper(s))
  {
    UpperStripLeft(s);
    UpperStripRight(StripLeft(s));
    var u := Upper(s);
    assert Upper(u) == u;
  }

  lemma {:induction false} UpperStripLeft(s: string)
    ensures StripLeft(Upper(s)) == Upper(StripLeft(s))
    decreases |s|
  {
    if s != [] && IsSpace(s[0]) {
      assert Upper(s)[1..] == Upper(s[1..]);
      UpperStripLeft(s[1..]);
    }
  }

  lemma {:induction false} UpperStripRight(s: string)
    ensures StripRight(Upper(s)) == Upper(StripRight(s))
    decreases |s|
  {
    if s != [] && IsSpace(s[|s| - 1]) {
      assert Upper(s)[..|s| - 1] == Upper(s[..|s| - 1]);
      UpperStripRight(s[..|s| - 1]);
    }
  }

  /** `needle` starts at position `i` of `hay`. */
  predicate OccursAt(hay: string, needle: string, i: int) {
    0 <= i && i + |needle| <= |hay| && hay[i..i + |needle|] == needle
  }

  /** Python's `needle in hay` for two strings. */
  predicate Contains(hay: string, needle: string)
    decreases |hay|
  {
    needle <= hay || (hay != [] && Contains(hay[1..], needle))
  }

  /** The scan above finds `needle` exactly when it occurs at some position. */
  lemma ContainsIffOccurs(hay: string, needle: string)
    ensures Contains(hay, needle) <==> exists i :: OccursAt(hay, needle, i)
  {
    if Contains(hay, needle) {
      var i := ContainsAt(hay, needle);
    }
    forall i | OccursAt(hay, needle, i)
      ensures Contains(hay, needle)
    {
      OccursContains(hay, needle, i);
    }
  }

  lemma {:induction false} ContainsAt(hay: string, needle: string) returns (i: nat)
    requires Contains(hay, needle)
    ensures OccursAt(hay, needle, i)
    decreases |hay|
  {
    PrefixIffOccursAtZero(hay, needle);
    if needle <= hay {
      i := 0;
    } else {
      var j := ContainsAt(hay[1..], needle);
      assert hay[1..][j..j + |needle|] == hay[j + 1..j + 1 + |needle|];
      i := j + 1;
    }
  }

  lemma {:induction false} OccursContains(hay: string, needle: string, i: int)
    requires OccursAt(hay, needle, i)
    ensures Contains(hay, needle)
    decreases i
  {
    PrefixIffOccursAtZero(hay, needle);
    if i > 0 {
      assert hay[1..][i - 1..i - 1 + |needle|] == hay[i..i + |needle|];
      OccursContains(hay[1..], needle, i - 1);
    }
  }

  lemma PrefixIffOccursAtZero(hay: string, needle: string)
    ensures needle <= hay <==> OccursAt(hay, needle, 0)
  {
    if OccursAt(hay, needle, 0) {
      assert hay[0..|needle|] == hay[..|needle|];
    }
  }

  /** Python's `sep.join(xs)`. */
  function Join(xs: seq<string>, sep: string): string
    decreases |xs|
  {
    if |xs| == 0 then ""
    else if |xs| == 1 then xs[0]
    else xs[0] + sep + Join(xs[1..], sep)
  }

  /** Each item of a join occurs in the joined text, at the position returned. */
  lemma {:induction false} JoinOccurs(xs: seq<string>, sep: string, j: nat) returns (i: nat)
    requires j < |xs|
    ensures i + |xs[j]| <= |Join(xs, sep)| && Join(xs, sep)[i..i + |xs[j]|] == xs[j]
    decreases |xs|
  {
    if j == 0 {
      i := 0;
      if |xs| > 1 {
        assert Join(xs, sep) == xs[0] + (sep + Join(xs[1..], sep));
      }
    } else {
      var i' := JoinOccurs(xs[1..], sep, j - 1);
      var pre, rest := xs[0] + sep, Join(xs[1..], sep);
      assert xs[1..][j - 1] == xs[j];
      assert Join(xs, sep) == pre + rest;
      i := |pre| + i';
      assert (pre + rest)[i..i + |xs[j]|] == rest[i'..i' + |xs[j]|];
    }
  }

  /** The text written by one `write` per item, in order: the items run together. */
  function Concat(xs: seq<string>): string
    decreases |xs|
  {
    if xs == [] then "" else xs[0] + Concat(xs[1..])
  }

  /** The position of the first `c` in `s`. */
  function FirstIndex(s: string, c: char): (i: nat)
    requires c in s
    ensures i < |s| && s[i] == c && c !in s[..i]
  {
    if s[0] == c then 0 else FirstIndex(s[1..], c) + 1
  }

  /** Python's `s.split(c)` for a one-character separator. */
  function Split(s: string, c: char): (parts: seq<string>)
    ensures |parts| >= 1
    ensures parts[0] <= s
    ensures c !in s ==> parts == [s]
    ensures forall k :: 0 <= k < |parts| ==> c !in parts[k]
    decreases |s|
  {
    if c in s then
      var i := FirstIndex(s, c);
      [s[..i]] + Split(s[i + 1..], c)
    else
      [s]
  }

  /** Joining with `c` then splitting on `c` gives back the parts, when none contains `c`. */
  lemma {:induction false} SplitJoin(xs: seq<string>, c: char)
    requires |xs| >= 1
    requires forall k :: 0 <= k < |xs| ==> c !in xs[k]
    ensures Split(Join(xs, [c]), c) == xs
    decreases |xs|
  {
    if |xs| > 1 {
      var x, tail := xs[0], xs[1..];
      var rest := Join(tail, [c]);
      var s := x + [c] + rest;
      assert Join(xs, [c]) == s;
      assert c in s && FirstIndex(s, c) == |x| by {
        FirstIndexAfter(x, c, rest);
      }
      assert s[..|x|] == x && s[|x| + 1..] == rest;
      assert Split(rest, c) == tail by {
        forall k | 0 <= k < |tail|
          ensures c !in tail[k]
        {
          assert tail[k] == xs[k + 1];
        }
        SplitJoin(tail, c);
      }
      assert Split(s, c) == [x] + tail;
      assert xs == [x] + tail;
    }
  }

  lemma {:induction false} FirstIndexAfter(x: string, c: char, y: string)
    requires c !in x
    ensures c in x + [c] + y && FirstIndex(x + [c] + y, c) == |x|
    decreases |x|
  {
    if x != [] {
      assert (x + [c] + y)[1..] == x[1..] + [c] + y;
      FirstIndexAfter(x[1..], c, y);
    }
  }

  /** Splitting on `c` then joining with `c` gives back the string. */
  lemma {:induction false} JoinSplit(s: string, c: char)
    ensures Join(Split(s, c), [c]) == s
    decreases |s|
  {
    if c in s {
      var i := FirstIndex(s, c);
      assert s == s[..i] + [c] + s[i + 1..] by {
        assert s[i] == c;
        assert s == s[..i] + [s[i]] + s[i + 1..];
      }
      var parts := Split(s, c);
      var tail := Split(s[i + 1..], c);
      assert parts == [s[..i]] + tail;
      assert |parts| > 1 && parts[0] == s[..i] && parts[1..] == tail;
      assert Join(tail, [c]) == s[i + 1..] by {
        JoinSplit(s[i + 1..], c);
      }
    }
  }

  /** Python's `s.split(" ")[0]`: the text before the first space. */
  function BeforeFirstSpace(s: string): string {
    Split(s, ' ')[0]
  }

  /** The text before the first space is a space-free prefix, the whole string when it has no
      space, and cutting twice changes nothing. */
  lemma BeforeFirstSpaceResult(s: string)
    ensures ' ' !in BeforeFirstSpace(s)
    ensures BeforeFirstSpace(s) <= s
    ensures ' ' !in s ==> BeforeFirstSpace(s) == s
    ensures BeforeFirstSpace(BeforeFirstSpace(s)) == BeforeFirstSpace(s)
    ensures ' ' in s ==> BeforeFirstSpace(s) == s[..FirstIndex(s, ' ')]
  {
  }

  /** Python's `s.replace(pat, rep)` (every non-overlapping occurrence, left to right). */
  function ReplaceAll(s: string, pat: string, rep: string): string
    requires pat != []
    decreases |s|
  {
    if pat <= s then rep + ReplaceAll(s[|pat|..], pat, rep)
    else if s == [] then []
    else [s[0]] + ReplaceAll(s[1..], pat, rep)
  }

  /** Replacing ".csv" in a path that has a single ".csv", at its end, swaps that suffix only. */
  lemma {:induction false} ReplaceCsvSuffix(base: string, rep: string)
    requires '.' !in base
    ensures ReplaceAll(base + ".csv", ".csv", rep) == base + rep
    decreases |base|
  {
    if base == [] {
      assert base + ".csv" == ".csv";
      assert ".csv"[4..] == [];
    } else {
      var s := base + ".csv";
      assert s[0] == base[0] && base[0] != '.';
      assert s[1..] == base[1..] + ".csv";
      ReplaceCsvSuffix(base[1..], rep);
      assert base == [base[0]] + base[1..];
    }
  }

  function DigitChar(d: nat): char
    requires d < 10
  {
    "0123456789"[d]
  }

  /** Python's `str(n)` for a natural number. */
  function NatToString(n: nat): (s: string)
    ensures s != []
    decreases n
  {
    if n < 10 then [DigitChar(n)] else NatToString(n / 10) + [DigitChar(n % 10)]
  }

  /** The count the scripts ask for prints as "100". */
  lemma HundredToString()
    ensures IntToString(100) == "100"
  {
    assert NatToString(1) == "1";
    assert NatToString(10) == "10";
  }

  /** Python's `str(i)` (as in an f-string) for an integer. */
  function IntToString(i: int): string {
    if i < 0 then "-" + NatToString(-i) else NatToString(i)
  }
}
