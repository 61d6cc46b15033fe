/** The Python `str` operations the FAQ code relies on: `isspace`, `strip`,
    `startswith`, `in`, `split`, `join`, `replace` and ASCII `lower`. */
module PyStr {

  // ---------------------------------------------------------------- whitespace

  /** Python's `str.isspace()` for a single code point. */
  predicate IsSpace(c: char) {
    var n := c as int;
    (9 <= n <= 13) || (28 <= n <= 32) || n == 0x85 || n == 0xA0 || n == 0x1680
    || (0x2000 <= n <= 0x200A) || n == 0x2028 || n == 0x2029 || n == 0x202F
    || n == 0x205F || n == 0x3000
  }

  predicate AllSpace(s: string) {
    forall i :: 0 <= i < |s| ==> IsSpace(s[i])
  }

  lemma AllSpaceSlice(s: string, i: int, j: int)
    requires AllSpace(s) && 0 <= i <= j <= |s|
    ensures AllSpace(s[i..j])
  {
    forall k | 0 <= k < j - i ensures IsSpace(s[i..j][k]) {
      assert s[i..j][k] == s[i + k];
    }
  }

  lemma AllSpaceConcat(a: string, b: string)
    requires AllSpace(a) && AllSpace(b)
    ensures AllSpace(a + b)
  {
    forall k | 0 <= k < |a + b| ensures IsSpace((a + b)[k]) {
      if k < |a| { assert (a + b)[k] == a[k]; } else { assert (a + b)[k] == b[k - |a|]; }
    }
  }

  /** Neither the first nor the last character is whitespace. */
  predicate IsStripped(s: string) {
    s == [] || (!IsSpace(s[0]) && !IsSpace(s[|s| - 1]))
  }

  /** `s.lstrip()`: drops the leading whitespace, and only that. */
  function LStrip(s: string): (r: string)
    ensures |r| <= |s| && r == s[|s| - |r|..]
    ensures r == [] || !IsSpace(r[0])
    decreases |s|
  {
    if s != [] && IsSpace(s[0]) then LStrip(s[1..]) else s
  }

  /** `s.rstrip()`: drops the trailing whitespace, and only that. */
  function RStrip(s: string): (r: string)
    ensures |r| <= |s| && r == s[..|r|]
    ensures r == [] || !IsSpace(r[|r| - 1])
    decreases |s|
  {
    if s != [] && IsSpace(s[|s| - 1]) then RStrip(s[..|s| - 1]) else s
  }

  /** `lstrip` cuts the string into leading whitespace and what it keeps. */
  lemma {:induction false} LStripSplit(s: string)
    ensures s == s[..|s| - |LStrip(s)|] + LStrip(s) && AllSpace(s[..|s| - |LStrip(s)|])
    decreases |s|
  {
    if s != [] && IsSpace(s[0]) {
      var t := s[1..];
      LStripSplit(t);
      var k := |t| - |LStrip(t)|;
      ConsPrefix(s, k);
      AllSpaceConcat([s[0]], t[..k]);
      SliceAt(s, k + 1);
    }
  }

  lemma ConsPrefix(s: string, k: nat)
    requires k < |s|
    ensures s[..k + 1] == [s[0]] + s[1..][..k]
  {
  }

  lemma SliceAt(s: string, k: nat)
    requires k <= |s|
    ensures s == s[..k] + s[k..]
  {
  }

  /** `rstrip` cuts the string into what it keeps and trailing whitespace. */
  lemma {:induction false} RStripSplit(s: string)
    ensures s == RStrip(s) + s[|RStrip(s)|..] && AllSpace(s[|RStrip(s)|..])
    decreases |s|
  {
    if s != [] && IsSpace(s[|s| - 1]) {
      var t := s[..|s| - 1];
      RStripSplit(t);
      var n := |RStrip(t)|;
      assert s[n..] == t[n..] + [s[|s| - 1]];
      AllSpaceConcat(t[n..], [s[|s| - 1]]);
    }
  }

  /** `s.strip()`. */
  function Strip(s: string): (r: string)
    ensures IsStripped(r)
  {
    RStrip(LStrip(s))
  }

  /** What `strip` removes is whitespace on both sides and what it keeps is a
      contiguous slice of the input. */
  lemma StripShape(s: string)
    ensures exists i, j :: 0 <= i <= j <= |s| && Strip(s) == s[i..j]
                          && AllSpace(s[..i]) && AllSpace(s[j..])
  {
    var l := LStrip(s);
    var i := |s| - |l|;
    LStripSplit(s);
    var r := RStrip(l);
    RStripSplit(l);
    var j := i + |r|;
    SliceOfSlice(s, i, j);
    assert Strip(s) == s[i..j];
  }

  lemma SliceOfSlice(s: string, i: nat, j: nat)
    requires i <= j <= |s|
    ensures s[i..][..j - i] == s[i..j] && s[i..][j - i..] == s[j..]
  {
  }

  lemma {:induction false} LStripOfSpacePrefix(w: string, s: string)
    requires AllSpace(w)
    ensures LStrip(w + s) == LStrip(s)
    decreases |w|
  {
    if w == [] {
      assert w + s == s;
    } else {
      assert (w + s)[0] == w[0];
      assert (w + s)[1..] == w[1..] + s;
      AllSpaceSlice(w, 1, |w|);
      LStripOfSpacePrefix(w[1..], s);
    }
  }

  lemma {:induction false} RStripOfSpaceSuffix(s: string, w: string)
    requires AllSpace(w)
    ensures RStrip(s + w) == RStrip(s)
    decreases |w|
  {
    if w == [] {
      assert s + w == s;
    } else {
      assert (s + w)[|s + w| - 1] == w[|w| - 1];
      assert (s + w)[..|s + w| - 1] == s + w[..|w| - 1];
      AllSpaceSlice(w, 0, |w| - 1);
      RStripOfSpaceSuffix(s, w[..|w| - 1]);
    }
  }

  lemma {:induction false} LStripOfConcat(s: string, w: string)
    ensures LStrip(s + w) == if AllSpace(s) then LStrip(w) else LStrip(s) + w
    decreases |s|
  {
    if s == [] {
      assert s + w == w;
    } else if IsSpace(s[0]) {
      assert (s + w)[0] == s[0];
      assert (s + w)[1..] == s[1..] + w;
      assert LStrip(s + w) == LStrip(s[1..] + w);
      LStripOfConcat(s[1..], w);
      AllSpaceCons(s);
    } else {
      assert (s + w)[0] == s[0];
      assert LStrip(s + w) == s + w;
    }
  }

  /** A string that opens with whitespace is all whitespace when its tail is. */
  lemma AllSpaceCons(s: string)
    requires s != [] && IsSpace(s[0])
    ensures AllSpace(s) <==> AllSpace(s[1..])
  {
    if AllSpace(s[1..]) {
      forall i | 0 <= i < |s| ensures IsSpace(s[i]) {
        if i > 0 { assert s[i] == s[1..][i - 1]; }
      }
    } else {
      var i :| 0 <= i < |s[1..]| && !IsSpace(s[1..][i]);
      assert s[i + 1] == s[1..][i];
    }
  }

  /** A string that starts with a solid prefix keeps it when stripped. */
  lemma StripKeepsSolidPrefix(p: string, w: string)
    requires p != [] && !IsSpace(p[0]) && !IsSpace(p[|p| - 1])
    ensures StartsWith(Strip(p + w), p)
  {
    var s := p + w;
    assert s[0] == p[0];
    assert LStrip(s) == s;
    RStripKeepsPrefix(p, w);
  }

  /** `rstrip` stops at the last non-space character, so a prefix ending in one
      survives. */
  lemma {:induction false} RStripKeepsPrefix(p: string, w: string)
    requires p != [] && !IsSpace(p[|p| - 1])
    ensures StartsWith(RStrip(p + w), p)
    decreases |w|
  {
    var s := p + w;
    if w == [] {
      assert s == p;
      StartsWithPrefix(p, []);
    } else if IsSpace(w[|w| - 1]) {
      var w' := w[..|w| - 1];
      assert s[..|s| - 1] == p + w';
      RStripKeepsPrefix(p, w');
    } else {
      assert s[|s| - 1] == w[|w| - 1];
      StartsWithPrefix(p, w);
    }
  }

  /** Whitespace in front of a string does not change what `strip` returns. */
  lemma StripOfSpacePrefix(w: string, s: string)
    requires AllSpace(w)
    ensures Strip(w + s) == Strip(s)
  {
    LStripOfSpacePrefix(w, s);
  }

  /** Whitespace after a string does not change what `strip` returns. */
  lemma StripOfSpaceSuffix(s: string, w: string)
    requires AllSpace(w)
    ensures Strip(s + w) == Strip(s)
  {
    LStripOfConcat(s, w);
    if AllSpace(s) {
      LStripOfSpacePrefix(s, []);
      assert s + [] == s;
      LStripOfSpacePrefix(w, []);
      assert w + [] == w;
    } else {
      RStripOfSpaceSuffix(LStrip(s), w);
    }
  }

  /** `strip` leaves nothing exactly when the input is all whitespace. */
  lemma StripEmptyIffAllSpace(s: string)
    ensures Strip(s) == [] <==> AllSpace(s)
  {
    LStripEmptyIffAllSpace(s);
    var l := LStrip(s);
    if l != [] {
      RStripKeepsSolidHead(l);
    }
  }

  lemma {:induction false} LStripEmptyIffAllSpace(s: string)
    ensures LStrip(s) == [] <==> AllSpace(s)
    decreases |s|
  {
    if s != [] && IsSpace(s[0]) {
      LStripEmptyIffAllSpace(s[1..]);
      AllSpaceCons(s);
    }
  }

  /** `rstrip` never removes a non-space first character. */
  lemma {:induction false} RStripKeepsSolidHead(l: string)
    requires l != [] && !IsSpace(l[0])
    ensures RStrip(l) != []
    decreases |l|
  {
    if IsSpace(l[|l| - 1]) {
      assert l[..|l| - 1][0] == l[0];
      RStripKeepsSolidHead(l[..|l| - 1]);
    }
  }

  /** `strip` is idempotent. */
  lemma StripOfStripped(s: string)
    requires IsStripped(s)
    ensures Strip(s) == s
  {
  }

  // ------------------------------------------------------------- substrings

  /** `s.startswith(p)`. */
  predicate StartsWith(s: string, p: string) {
    |p| <= |s| && s[..|p|] == p
  }

  /** Every string starts with itself followed by anything. */
  lemma StartsWithPrefix(p: string, s: string)
    ensures StartsWith(p + s, p)
  {
    assert (p + s)[..|p|] == p;
  }

  /** Python's `p in s`: `p` occurs somewhere in `s`. */
  predicate Contains(s: string, p: string)
    decreases |s|
  {
    StartsWith(s, p) || (s != [] && Contains(s[1..], p))
  }

  /** A string occurs inside any string built around it. */
  lemma {:induction false} ContainsMiddle(x: string, p: string, y: string)
    ensures Contains(x + p + y, p)
    decreases |x|
  {
    if x == [] {
      assert (x + p + y)[..|p|] == p;
    } else {
      assert (x + p + y)[1..] == x[1..] + p + y;
      ContainsMiddle(x[1..], p, y);
    }
  }

  /** An occurrence in `x` is an occurrence in `x + y`. */
  lemma {:induction false} ContainsLeft(x: string, y: string, p: string)
    requires Contains(x, p)
    ensures Contains(x + y, p)
    decreases |x|
  {
    if StartsWith(x, p) {
      assert (x + y)[..|p|] == x[..|p|];
    } else {
      assert (x + y)[1..] == x[1..] + y;
      ContainsLeft(x[1..], y, p);
    }
  }

  /** An occurrence in `y` is an occurrence in `x + y`. */
  lemma {:induction false} ContainsRight(x: string, y: string, p: string)
    requires Contains(y, p)
    ensures Contains(x + y, p)
    decreases |x|
  {
    if x == [] {
      assert x + y == y;
    } else {
      assert (x + y)[1..] == x[1..] + y;
      ContainsRight(x[1..], y, p);
    }
  }

  /** A pattern with a character that does not occur in `s` does not occur in `s`. */
  lemma {:induction false} NotContainsByChar(s: string, p: string, k: nat)
    requires k < |p| && p[k] !in s
    ensures !Contains(s, p)
    decreases |s|
  {
    if s != [] {
      assert forall c :: c in s[1..] ==> c in s;
      NotContainsByChar(s[1..], p, k);
    }
  }

  /** No occurrence of `p` straddles `x + y` when the last character of `x`
      appears in `p` only as its last character. */
  lemma {:induction false} NotContainsJoinAfter(x: string, y: string, p: string)
    requires x != [] && p != []
    requires x[|x| - 1] !in p[..|p| - 1]
    requires !Contains(x, p) && !Contains(y, p)
    ensures !Contains(x + y, p)
    decreases |x|
  {
    assert !StartsWith(x + y, p) by {
      if |p| <= |x| {
        assert (x + y)[..|p|] == x[..|p|];
      } else {
        assert (x + y)[|x| - 1] == x[|x| - 1];
      }
    }
    assert (x + y)[1..] == x[1..] + y;
    if |x| > 1 {
      NotContainsJoinAfter(x[1..], y, p);
    } else {
      assert x[1..] + y == y;
    }
  }

  /** No occurrence of `p` straddles `x + y` when the first character of `y`
      appears in `p` only as its first character. */
  lemma {:induction false} NotContainsJoinBefore(x: string, y: string, p: string)
    requires y != [] && p != []
    requires y[0] !in p[1..]
    requires !Contains(x, p) && !Contains(y, p)
    ensures !Contains(x + y, p)
    decreases |x|
  {
    if x == [] {
      assert x + y == y;
    } else {
      assert !StartsWith(x + y, p) by {
        if |p| <= |x| {
          assert (x + y)[..|p|] == x[..|p|];
        } else {
          assert (x + y)[|x|] == y[0];
        }
      }
      assert (x + y)[1..] == x[1..] + y;
      NotContainsJoinBefore(x[1..], y, p);
    }
  }

  // ------------------------------------------------------------ split / join

  /** Puts `x` in front of the first piece. */
  function PrependString(x: string, parts: seq<string>): (r: seq<string>)
    requires |parts| >= 1
    ensures |r| == |parts| && r[0] == x + parts[0] && r[1..] == parts[1..]
  {
    [x + parts[0]] + parts[1..]
  }

  /** `s.split(sep)` for a non-empty separator: the pieces between the
      non-overlapping occurrences of `sep`, found left to right. */
  function Split(s: string, sep: string): (r: seq<string>)
    requires sep != []
    ensures |r| >= 1
    decreases |s|
  {
    if s == [] then [""]
    else if StartsWith(s, sep) then [""] + Split(s[|sep|..], sep)
    else PrependString([s[0]], Split(s[1..], sep))
  }

  /** `sep.join(parts)`. */
  function Join(parts: seq<string>, sep: string): (r: string)
    ensures |parts| == 1 ==> r == parts[0]
  {
    if |parts| == 0 then ""
    else if |parts| == 1 then parts[0]
    else parts[0] + sep + Join(parts[1..], sep)
  }

  lemma JoinPrepend(x: string, parts: seq<string>, sep: string)
    requires |parts| >= 1
    ensures Join(PrependString(x, parts), sep) == x + Join(parts, sep)
  {
    var r := PrependString(x, parts);
    if |parts| > 1 {
      assert Join(r, sep) == r[0] + sep + Join(r[1..], sep);
      assert x + Join(parts, sep) == x + (parts[0] + sep + Join(parts[1..], sep));
    }
  }

  /** Joining the pieces of a split with the same separator gives the input back. */
  lemma {:induction false} JoinSplit(s: string, sep: string)
    requires sep != []
    ensures Join(Split(s, sep), sep) == s
    decreases |s|, 1
  {
    if s == [] {
    } else if StartsWith(s, sep) {
      JoinSplitAtSep(s, sep);
    } else {
      JoinSplit(s[1..], sep);
      JoinPrepend([s[0]], Split(s[1..], sep), sep);
      ConsHead(s);
    }
  }

  /** The step of `JoinSplit` at an occurrence of the separator. */
  lemma {:induction false} JoinSplitAtSep(s: string, sep: string)
    requires sep != [] && s != [] && StartsWith(s, sep)
    ensures Join(Split(s, sep), sep) == s
    decreases |s|, 0
  {
    var t := s[|sep|..];
    var rest := Split(t, sep);
    JoinSplit(t, sep);
    assert Split(s, sep) == [""] + rest;
    JoinCons("", rest, sep);
    SliceAt(s, |sep|);
    assert "" + sep == sep;
  }

  lemma JoinCons(x: string, rest: seq<string>, sep: string)
    requires |rest| >= 1
    ensures Join([x] + rest, sep) == x + sep + Join(rest, sep)
  {
    assert ([x] + rest)[1..] == rest;
  }

  /** A split yields a single piece exactly when the separator does not occur. */
  lemma {:induction false} SplitSingleIffAbsent(s: string, sep: string)
    requires sep != []
    ensures |Split(s, sep)| == 1 <==> !Contains(s, sep)
    decreases |s|
  {
    if s != [] && !StartsWith(s, sep) {
      SplitSingleIffAbsent(s[1..], sep);
    }
  }

  /** Without an occurrence of the separator the split is the input itself. */
  lemma SplitAbsent(s: string, sep: string)
    requires sep != [] && !Contains(s, sep)
    ensures Split(s, sep) == [s]
  {
    SplitSingleIffAbsent(s, sep);
    JoinSplit(s, sep);
  }

  /** The first piece of a split ends at the first occurrence of the
      separator. */
  lemma {:induction false} SplitAtFirst(x: string, sep: string, y: string)
    requires sep != [] && !Contains(x + sep[..|sep| - 1], sep)
    ensures Split(x + sep + y, sep) == [x] + Split(y, sep)
    decreases |x|
  {
    var s := x + sep + y;
    if x == [] {
      assert s == sep + y && s[..|sep|] == sep && s[|sep|..] == y;
    } else {
      var w := x + sep[..|sep| - 1];
      assert !StartsWith(s, sep) by {
        assert s[..|sep|] == w[..|sep|];
      }
      assert w[1..] == x[1..] + sep[..|sep| - 1];
      assert s[1..] == x[1..] + sep + y;
      SplitAtFirst(x[1..], sep, y);
      assert [s[0]] + x[1..] == x;
    }
  }

  /** The last piece of a split never contains the separator. */
  lemma {:induction false} SplitLastAbsent(s: string, sep: string)
    requires sep != []
    ensures !Contains(Split(s, sep)[|Split(s, sep)| - 1], sep)
    decreases |s|
  {
    if s == [] {
    } else if StartsWith(s, sep) {
      SplitLastAbsent(s[|sep|..], sep);
      LastOfCons("", Split(s[|sep|..], sep));
    } else {
      var rest := Split(s[1..], sep);
      SplitPrependNoSep(s, sep);
      if |rest| == 1 {
        SplitSingleIffAbsent(s, sep);
        SplitAbsent(s, sep);
      } else {
        SplitLastAbsent(s[1..], sep);
        PrependFront([s[0]], rest);
      }
    }
  }

  lemma LastOfCons<T>(x: T, ps: seq<T>)
    requires ps != []
    ensures ([x] + ps)[|[x] + ps| - 1] == ps[|ps| - 1]
  {
  }

  /** A string shorter than the pattern cannot contain it. */
  lemma {:induction false} NotContainsShort(s: string, p: string)
    requires |s| < |p|
    ensures !Contains(s, p)
    decreases |s|
  {
    if s != [] { NotContainsShort(s[1..], p); }
  }

  /** Appending text to the input only affects the last piece of a split:
      `(s + w).split(sep)` is every piece of `s.split(sep)` but the last,
      followed by the split of that last piece with `w` appended. */
  lemma {:induction false} SplitAppend(s: string, w: string, sep: string)
    requires sep != []
    ensures var p := Split(s, sep);
            Split(s + w, sep) == p[..|p| - 1] + Split(p[|p| - 1] + w, sep)
    decreases |s|
  {
    if s == [] {
      assert s + w == w;
    } else if StartsWith(s, sep) {
      assert (s + w)[..|sep|] == s[..|sep|];
      assert (s + w)[|sep|..] == s[|sep|..] + w;
      SplitAppend(s[|sep|..], w, sep);
      SplitAppendAfterSep(s, w, sep);
    } else if StartsWith(s + w, sep) {
      if |sep| <= |s| {
        assert false;
      }
      NotContainsShort(s, sep);
      SplitAbsent(s, sep);
    } else {
      SplitAppend(s[1..], w, sep);
      SplitAppendAfterChar(s, w, sep);
    }
  }

  lemma SplitAppendAfterSep(s: string, w: string, sep: string)
    requires sep != [] && StartsWith(s, sep) && StartsWith(s + w, sep)
    requires (s + w)[|sep|..] == s[|sep|..] + w
    requires var q := Split(s[|sep|..], sep);
             Split(s[|sep|..] + w, sep) == q[..|q| - 1] + Split(q[|q| - 1] + w, sep)
    ensures var p := Split(s, sep);
            Split(s + w, sep) == p[..|p| - 1] + Split(p[|p| - 1] + w, sep)
  {
    var p := Split(s, sep);
    var q := Split(s[|sep|..], sep);
    assert p == [""] + q;
    assert p[..|p| - 1] == [""] + q[..|q| - 1];
    assert p[|p| - 1] == q[|q| - 1];
  }

  lemma SplitAppendAfterChar(s: string, w: string, sep: string)
    requires sep != [] && s != [] && !StartsWith(s, sep) && !StartsWith(s + w, sep)
    requires var q := Split(s[1..], sep);
             Split(s[1..] + w, sep) == q[..|q| - 1] + Split(q[|q| - 1] + w, sep)
    ensures var p := Split(s, sep);
            Split(s + w, sep) == p[..|p| - 1] + Split(p[|p| - 1] + w, sep)
  {
    var rest := Split(s[1..], sep);
    SplitPrependNoSep(s, sep);
    SplitPrependNoSep(s + w, sep);
    ConsSlices(s, w);
    if |rest| == 1 {
      SplitSingleIffAbsent(s[1..], sep);
      SplitAbsent(s[1..], sep);
      ConsHead(s);
    } else {
      PrependConcat([s[0]], rest[..|rest| - 1], Split(rest[|rest| - 1] + w, sep));
      PrependFront([s[0]], rest);
    }
  }

  lemma ConsHead<T>(s: seq<T>)
    requires s != []
    ensures [s[0]] + s[1..] == s
  {
  }

  lemma ConsSlices(w: string, s: string)
    requires w != []
    ensures (w + s)[0] == w[0] && (w + s)[1..] == w[1..] + s
  {
  }

  /** Putting `x` in front only touches the first piece. */
  lemma PrependConcat(x: string, ps: seq<string>, ts: seq<string>)
    requires |ps| >= 1
    ensures PrependString(x, ps + ts) == PrependString(x, ps) + ts
  {
    assert (ps + ts)[0] == ps[0];
    assert (ps + ts)[1..] == ps[1..] + ts;
  }

  lemma PrependFront(x: string, ps: seq<string>)
    requires |ps| >= 2
    ensures var r := PrependString(x, ps);
      r[..|r| - 1] == PrependString(x, ps[..|ps| - 1]) && r[|r| - 1] == ps[|ps| - 1]
  {
    var r := PrependString(x, ps);
    assert r[|r| - 1] == r[1..][|r| - 2];
    assert ps[..|ps| - 1][1..] == ps[1..][..|ps| - 2];
    assert r[..|r| - 1] == [r[0]] + r[1..][..|r| - 2];
  }

  lemma PrependTwice(a: string, b: string, ps: seq<string>)
    requires |ps| >= 1
    ensures PrependString(a, PrependString(b, ps)) == PrependString(a + b, ps)
  {
    assert a + (b + ps[0]) == (a + b) + ps[0];
  }

  /** The first piece of a split that does not start with the separator
      starts with the first character of the input. */
  lemma SplitFirstPiece(s: string, sep: string)
    requires sep != [] && s != [] && !StartsWith(s, sep)
    ensures Split(s, sep)[0] != [] && Split(s, sep)[0][0] == s[0]
  {
    SplitPrependNoSep(s, sep);
  }

  /** Splitting a string that does not start with the separator keeps its
      first character in the first piece. */
  lemma SplitPrependNoSep(t: string, sep: string)
    requires sep != [] && t != [] && !StartsWith(t, sep)
    ensures Split(t, sep) == PrependString([t[0]], Split(t[1..], sep))
  {
  }

  /** Every piece of the split of a whitespace-only string is whitespace-only. */
  lemma {:induction false} SplitOfAllSpace(s: string, sep: string)
    requires sep != [] && AllSpace(s)
    ensures forall i :: 0 <= i < |Split(s, sep)| ==> AllSpace(Split(s, sep)[i])
    decreases |s|
  {
    var r := Split(s, sep);
    if s == [] {
    } else if StartsWith(s, sep) {
      AllSpaceSlice(s, |sep|, |s|);
      SplitOfAllSpace(s[|sep|..], sep);
      var q := Split(s[|sep|..], sep);
      forall i | 0 <= i < |r| ensures AllSpace(r[i]) {
        if i > 0 { assert r[i] == q[i - 1]; }
      }
    } else {
      AllSpaceSlice(s, 1, |s|);
      SplitOfAllSpace(s[1..], sep);
      var rest := Split(s[1..], sep);
      assert AllSpace([s[0]] + rest[0]) by {
        forall i | 0 <= i < |[s[0]] + rest[0]| ensures IsSpace(([s[0]] + rest[0])[i]) {
          if i > 0 { assert ([s[0]] + rest[0])[i] == rest[0][i - 1]; }
        }
      }
      forall i | 0 <= i < |r| ensures AllSpace(r[i]) {
        if i > 0 { assert r[i] == r[1..][i - 1] == rest[i]; }
      }
    }
  }

  /** When `x` ends in a non-space character and contains no whitespace-only
      separator, appending whitespace `v` cannot move a split point into `x`. */
  lemma {:induction false} SplitAfterSolid(x: string, v: string, sep: string)
    requires sep != [] && AllSpace(sep) && AllSpace(v)
    requires x != [] && !IsSpace(x[|x| - 1]) && !Contains(x, sep)
    ensures Split(x + v, sep) == PrependString(x, Split(v, sep))
    decreases |x|
  {
    NoSepAtSolid(x, v, sep);
    SplitPrependNoSep(x + v, sep);
    ConsSlices(x, v);
    ConsHead(x);
    if |x| == 1 {
      assert x == [x[0]] && x[1..] + v == v;
    } else {
      SplitAfterSolid(x[1..], v, sep);
      PrependTwice([x[0]], x[1..], Split(v, sep));
    }
  }

  /** A whitespace separator cannot start inside a separator-free `x` that
      ends in a non-space character. */
  lemma NoSepAtSolid(x: string, v: string, sep: string)
    requires sep != [] && AllSpace(sep)
    requires x != [] && !IsSpace(x[|x| - 1]) && !Contains(x, sep)
    ensures !StartsWith(x + v, sep)
  {
    if |sep| <= |x| {
      assert (x + v)[..|sep|] == x[..|sep|];
    } else {
      assert (x + v)[|x| - 1] == x[|x| - 1];
    }
  }

  // ------------------------------------------------------- replace / lower

  /** `s.replace(pat, repl)` for a non-empty `pat`, which Python defines to be
      `repl.join(s.split(pat))`: every non-overlapping occurrence, left to right,
      is replaced. */
  function Replace(s: string, pat: string, repl: string): string
    requires pat != []
  {
    Join(Split(s, pat), repl)
  }

  /** Replacing a pattern that does not occur changes nothing. */
  lemma ReplaceAbsent(s: string, pat: string, repl: string)
    requires pat != [] && !Contains(s, pat)
    ensures Replace(s, pat, repl) == s
  {
    SplitAbsent(s, pat);
  }

  /** `replace` works from the first occurrence on: the text before it is
      kept, that occurrence becomes `repl`, and the rest is replaced in turn.
      With `ReplaceAbsent` this replaces every occurrence, left to right. */
  lemma ReplaceAtFirst(x: string, pat: string, y: string, repl: string)
    requires pat != [] && !Contains(x + pat[..|pat| - 1], pat)
    ensures Replace(x + pat + y, pat, repl) == x + repl + Replace(y, pat, repl)
  {
    SplitAtFirst(x, pat, y);
    JoinCons(x, Split(y, pat), repl);
  }

  /** Removing a pattern that occurs once leaves the text around it. */
  lemma RemoveOnly(x: string, pat: string, y: string)
    requires pat != [] && !Contains(x + pat[..|pat| - 1], pat) && !Contains(y, pat)
    ensures Replace(x + pat + y, pat, "") == x + y
  {
    ReplaceAtFirst(x, pat, y, "");
    ReplaceAbsent(y, pat, "");
    assert x + "" + y == x + y;
  }

  /** Removing a pattern drops a leading occurrence and goes on with the rest. */
  lemma RemoveLeading(pat: string, rest: string)
    requires pat != []
    ensures Replace(pat + rest, pat, "") == Replace(rest, pat, "")
  {
    var front := pat[..|pat| - 1];
    NotContainsShort(front, pat);
    assert [] + front == front && [] + pat + rest == pat + rest;
    ReplaceAtFirst([], pat, rest, "");
    assert [] + "" + Replace(rest, pat, "") == Replace(rest, pat, "");
  }

  predicate IsAsciiUpper(c: char) {
    'A' <= c <= 'Z'
  }

  /** `c.lower()` restricted to ASCII: only `A`..`Z` change. */
  function LowerChar(c: char): (r: char)
    ensures !IsAsciiUpper(r)
    ensures IsSpace(r) <==> IsSpace(c)
    ensures !IsAsciiUpper(c) ==> r == c
  {
    if IsAsciiUpper(c) then (c as int + 32) as char else c
  }

  /** `s.lower()` restricted to ASCII. */
  function Lower(s: string): (r: string)
    ensures |r| == |s|
    ensures forall i :: 0 <= i < |r| ==> !IsAsciiUpper(r[i])
    ensures forall i :: 0 <= i < |r| ==> (IsSpace(r[i]) <==> IsSpace(s[i]))
  {
    seq(|s|, i requires 0 <= i < |s| => LowerChar(s[i]))
  }

  /** Lowering works character by character. */
  lemma LowerConcat(a: string, b: string)
    ensures Lower(a + b) == Lower(a) + Lower(b)
  {
  }

  /** A string without ASCII capitals is its own lowercase form. */
  lemma LowerOfLowercase(s: string)
    requires forall i :: 0 <= i < |s| ==> !IsAsciiUpper(s[i])
    ensures Lower(s) == s
  {
  }

  /** Lowering a string whose only ASCII capital is its first character. */
  lemma LowerFirstCapital(s: string)
    requires s != [] && forall i :: 1 <= i < |s| ==> !IsAsciiUpper(s[i])
    ensures Lower(s) == [LowerChar(s[0])] + s[1..]
  {
  }

  /** Lowering twice is lowering once. */
  lemma LowerIdempotent(s: string)
    ensures Lower(Lower(s)) == Lower(s)
  {
  }

  /** Lowering keeps a stripped string stripped. */
  lemma LowerKeepsStripped(s: string)
    requires IsStripped(s)
    ensures IsStripped(Lower(s))
  {
  }

  // --------------------------------------- `[t.strip() for t in parts if t.strip()]`

  /** The list comprehension `[t.strip() for t in parts if t.strip()]`. */
  function StrippedNonEmpty(parts: seq<string>): (r: seq<string>)
    ensures |r| <= |parts|
  {
    if parts == [] then [] else Kept(parts[0]) + StrippedNonEmpty(parts[1..])
  }

  /** What the comprehension keeps of one piece. */
  function Kept(t: string): (r: seq<string>)
    ensures |r| <= 1
  {
    if Strip(t) == [] then [] else [Strip(t)]
  }

  /** Every string of the list is non-empty and trimmed. */
  predicate AllTrimmed(ps: seq<string>) {
    forall i :: 0 <= i < |ps| ==> ps[i] != [] && IsStripped(ps[i])
  }

  lemma AllTrimmedConcat(a: seq<string>, b: seq<string>)
    requires AllTrimmed(a) && AllTrimmed(b)
    ensures AllTrimmed(a + b)
  {
    forall i | 0 <= i < |a + b| ensures (a + b)[i] != [] && IsStripped((a + b)[i]) {
      if i < |a| { assert (a + b)[i] == a[i]; } else { assert (a + b)[i] == b[i - |a|]; }
    }
  }

  lemma KeptTrimmed(t: string)
    ensures AllTrimmed(Kept(t))
  {
  }

  /** Every piece kept is non-empty and trimmed. */
  lemma {:induction false} StrippedNonEmptyElements(parts: seq<string>)
    ensures AllTrimmed(StrippedNonEmpty(parts))
    decreases |parts|
  {
    if parts != [] {
      StrippedNonEmptyElements(parts[1..]);
      StrippedNonEmptyCons(parts);
      KeptTrimmed(parts[0]);
      AllTrimmedConcat(Kept(parts[0]), StrippedNonEmpty(parts[1..]));
    }
  }

  lemma {:induction false} StrippedNonEmptyConcat(a: seq<string>, b: seq<string>)
    ensures StrippedNonEmpty(a + b) == StrippedNonEmpty(a) + StrippedNonEmpty(b)
    decreases |a|
  {
    if a == [] {
      assert a + b == b;
    } else {
      var k := Kept(a[0]);
      assert (a + b)[0] == a[0];
      assert (a + b)[1..] == a[1..] + b;
      StrippedNonEmptyConcat(a[1..], b);
      assert StrippedNonEmpty(a + b) == k + (StrippedNonEmpty(a[1..]) + StrippedNonEmpty(b));
      assert k + (StrippedNonEmpty(a[1..]) + StrippedNonEmpty(b)) == (k + StrippedNonEmpty(a[1..])) + StrippedNonEmpty(b);
    }
  }

  lemma {:induction false} StrippedNonEmptyOfSpaces(parts: seq<string>)
    requires forall i :: 0 <= i < |parts| ==> AllSpace(parts[i])
    ensures StrippedNonEmpty(parts) == []
    decreases |parts|
  {
    if parts != [] {
      StripEmptyIffAllSpace(parts[0]);
      StrippedNonEmptyOfSpaces(parts[1..]);
    }
  }

  /** The comprehension on a non-empty list: the first piece, then the rest. */
  lemma StrippedNonEmptyCons(parts: seq<string>)
    requires parts != []
    ensures StrippedNonEmpty(parts) == Kept(parts[0]) + StrippedNonEmpty(parts[1..])
  {
  }

  lemma StrippedNonEmptySingle(t: string)
    ensures StrippedNonEmpty([t]) == Kept(t)
  {
    assert [t][1..] == [];
  }

  /** An empty piece, or one of whitespace only, is dropped. */
  lemma KeptOfSpace(t: string)
    requires AllSpace(t)
    ensures Kept(t) == []
  {
    StripEmptyIffAllSpace(t);
  }

  /** A split that starts with the separator opens with an empty piece,
      which the stripped non-empty pieces drop. */
  lemma PiecesAfterSep(t: string, sep: string)
    requires sep != [] && StartsWith(t, sep)
    ensures StrippedNonEmpty(Split(t, sep)) == StrippedNonEmpty(Split(t[|sep|..], sep))
  {
    var p := Split(t, sep);
    assert p == [""] + Split(t[|sep|..], sep);
    assert p[1..] == Split(t[|sep|..], sep);
    StrippedNonEmptyCons(p);
    KeptOfSpace(p[0]);
  }

  /** A leading whitespace character that does not start a separator joins
      the first piece, where stripping removes it again. */
  lemma PiecesAfterSpaceChar(t: string, sep: string)
    requires sep != [] && t != [] && !StartsWith(t, sep) && IsSpace(t[0])
    ensures StrippedNonEmpty(Split(t, sep)) == StrippedNonEmpty(Split(t[1..], sep))
  {
    var p := Split(t[1..], sep);
    var q := Split(t, sep);
    SplitPrependNoSep(t, sep);
    assert q[0] == [t[0]] + p[0] && q[1..] == p[1..];
    assert AllSpace([t[0]]);
    StripOfSpacePrefix([t[0]], p[0]);
    assert Kept(q[0]) == Kept(p[0]);
    StrippedNonEmptyCons(q);
    StrippedNonEmptyCons(p);
  }

  /** A separator inside leading whitespace leaves whitespace behind it. */
  lemma SepInsideSpace(w: string, s: string, sep: string)
    requires AllSpace(w) && StartsWith(w + s, sep) && |sep| <= |w|
    ensures (w + s)[|sep|..] == w[|sep|..] + s && AllSpace(w[|sep|..])
  {
    AllSpaceSlice(w, |sep|, |w|);
  }

  /** A whitespace separator reaching past leading whitespace eats only
      whitespace of the text. */
  lemma SepBeyondSpace(w: string, s: string, sep: string)
    requires AllSpace(sep) && StartsWith(w + s, sep) && |sep| > |w|
    ensures var k := |sep| - |w|;
      k <= |s| && (w + s)[|sep|..] == s[k..] && s == s[..k] + s[k..] && AllSpace(s[..k])
  {
    var t := w + s;
    var k := |sep| - |w|;
    var u := s[..k];
    forall i | 0 <= i < |u| ensures IsSpace(u[i]) {
      assert u[i] == t[|w| + i] == sep[|w| + i];
    }
  }

  /** With a whitespace-only separator, whitespace in front of the text does
      not change the non-empty stripped pieces of its split. */
  lemma {:induction false} PiecesOfSpacePrefix(w: string, s: string, sep: string)
    requires sep != [] && AllSpace(sep) && AllSpace(w)
    ensures StrippedNonEmpty(Split(w + s, sep)) == StrippedNonEmpty(Split(s, sep))
    decreases |w| + |s|, 1
  {
    if w == [] {
      assert w + s == s;
    } else if !StartsWith(w + s, sep) {
      PiecesOfSpaceCharPrefix(w, s, sep);
    } else if |sep| <= |w| {
      PiecesOfSepInPrefix(w, s, sep);
    } else {
      PiecesOfSepBeyondPrefix(w, s, sep);
    }
  }

  /** The prefix case where the text opens with a whitespace character that
      does not start a separator. */
  lemma {:induction false} PiecesOfSpaceCharPrefix(w: string, s: string, sep: string)
    requires sep != [] && AllSpace(sep) && AllSpace(w) && w != [] && !StartsWith(w + s, sep)
    ensures StrippedNonEmpty(Split(w + s, sep)) == StrippedNonEmpty(Split(s, sep))
    decreases |w| + |s|, 0
  {
    ConsSlices(w, s);
    PiecesAfterSpaceChar(w + s, sep);
    AllSpaceSlice(w, 1, |w|);
    PiecesOfSpacePrefix(w[1..], s, sep);
  }

  /** The prefix case where a separator opens the text inside the whitespace. */
  lemma {:induction false} PiecesOfSepInPrefix(w: string, s: string, sep: string)
    requires sep != [] && AllSpace(sep) && AllSpace(w) && StartsWith(w + s, sep) && |sep| <= |w|
    ensures StrippedNonEmpty(Split(w + s, sep)) == StrippedNonEmpty(Split(s, sep))
    decreases |w| + |s|, 0
  {
    PiecesAfterSep(w + s, sep);
    SepInsideSpace(w, s, sep);
    PiecesOfSpacePrefix(w[|sep|..], s, sep);
  }

  /** The prefix case where a separator opens the text and reaches past the
      whitespace. */
  lemma {:induction false} PiecesOfSepBeyondPrefix(w: string, s: string, sep: string)
    requires sep != [] && AllSpace(sep) && AllSpace(w) && w != [] && StartsWith(w + s, sep) && |sep| > |w|
    ensures StrippedNonEmpty(Split(w + s, sep)) == StrippedNonEmpty(Split(s, sep))
    decreases |w| + |s|, 0
  {
    var k := |sep| - |w|;
    PiecesAfterSep(w + s, sep);
    SepBeyondSpace(w, s, sep);
    assert k <= |s|;
    PiecesOfSpacePrefix(s[..k], s[k..], sep);
  }

  /** With a whitespace-only separator, whitespace after the text does not
      change the non-empty stripped pieces of its split. */
  lemma PiecesOfSpaceSuffix(s: string, w: string, sep: string)
    requires sep != [] && AllSpace(sep) && AllSpace(w)
    ensures StrippedNonEmpty(Split(s + w, sep)) == StrippedNonEmpty(Split(s, sep))
  {
    var p := Split(s, sep);
    SplitAppend(s, w, sep);
    SplitLastAbsent(s, sep);
    assert !Contains(p[|p| - 1], sep);
    assert AllSpace(w) && AllSpace(sep);
    PiecesOfLastPiece(p[|p| - 1], w, sep);
    PiecesOfFrontAndLast(p, Split(p[|p| - 1] + w, sep), Split(s + w, sep));
  }

  /** Replacing the last piece by pieces that keep the same keeps the same. */
  lemma PiecesOfFrontAndLast(p: seq<string>, tail: seq<string>, whole: seq<string>)
    requires p != [] && StrippedNonEmpty(tail) == Kept(p[|p| - 1])
    requires whole == p[..|p| - 1] + tail
    ensures StrippedNonEmpty(whole) == StrippedNonEmpty(p)
  {
    var front, last := p[..|p| - 1], p[|p| - 1];
    StrippedNonEmptyConcat(front, tail);
    StrippedNonEmptySingle(last);
    StrippedNonEmptyConcat(front, [last]);
    FrontAndLast(p);
  }

  lemma FrontAndLast<T>(p: seq<T>)
    requires p != []
    ensures p[..|p| - 1] + [p[|p| - 1]] == p
  {
  }

  /** The same for a single piece that holds no separator: what the piece
      keeps is what the split of the piece with the whitespace keeps. */
  lemma PiecesOfLastPiece(last: string, w: string, sep: string)
    requires sep != [] && AllSpace(sep) && AllSpace(w) && !Contains(last, sep)
    ensures StrippedNonEmpty(Split(last + w, sep)) == Kept(last)
  {
    var x := RStrip(last);
    var ws := last[|x|..];
    RStripSplit(last);
    AllSpaceConcat(ws, w);
    if x == [] {
      PiecesOfBlankLastPiece(last, w, sep);
    } else {
      PiecesOfSolidLastPiece(x, ws, w, sep);
    }
  }

  lemma PiecesOfBlankLastPiece(last: string, w: string, sep: string)
    requires sep != [] && AllSpace(last) && AllSpace(w)
    ensures StrippedNonEmpty(Split(last + w, sep)) == Kept(last)
  {
    AllSpaceConcat(last, w);
    PiecesOfSpaces(last + w, sep);
    KeptOfSpace(last);
  }

  lemma PiecesOfSolidLastPiece(x: string, ws: string, w: string, sep: string)
    requires sep != [] && AllSpace(sep) && AllSpace(ws) && AllSpace(w) && !Contains(x + ws, sep)
    requires x != [] && !IsSpace(x[|x| - 1])
    ensures StrippedNonEmpty(Split(x + ws + w, sep)) == Kept(x + ws)
  {
    var v := ws + w;
    AllSpaceConcat(ws, w);
    assert x + ws + w == x + v;
    PrefixNotContains(x, ws, sep);
    SplitAfterSolid(x, v, sep);
    PiecesAfterSolid(x, v, sep);
    StripOfSpaceSuffix(x, ws);
  }

  /** A whitespace-only text has no non-empty stripped pieces. */
  lemma PiecesOfSpaces(v: string, sep: string)
    requires sep != [] && AllSpace(v)
    ensures StrippedNonEmpty(Split(v, sep)) == []
  {
    SplitOfAllSpace(v, sep);
    StrippedNonEmptyOfSpaces(Split(v, sep));
  }

  /** A piece ending in a non-space character, followed by pieces of
      whitespace, keeps exactly that piece, trimmed. */
  lemma PiecesAfterSolid(x: string, v: string, sep: string)
    requires sep != [] && AllSpace(sep) && AllSpace(v)
    requires x != [] && !IsSpace(x[|x| - 1])
    ensures StrippedNonEmpty(PrependString(x, Split(v, sep))) == Kept(x) == [Strip(x)]
  {
    var q := Split(v, sep);
    var r := PrependString(x, q);
    SplitOfAllSpace(v, sep);
    assert r[0] == x + q[0] && r[1..] == q[1..];
    assert AllSpace(q[0]);
    forall i | 0 <= i < |q[1..]| ensures AllSpace(q[1..][i]) { assert q[1..][i] == q[i + 1]; }
    StrippedNonEmptyOfSpaces(q[1..]);
    StrippedNonEmptyCons(r);
    StripOfSpaceSuffix(x, q[0]);
    assert Kept(r[0]) == Kept(x);
    assert !AllSpace(x);
    StripEmptyIffAllSpace(x);
  }

  /** A prefix of a string free of `p` is free of `p`. */
  lemma {:induction false} PrefixNotContains(x: string, y: string, p: string)
    requires !Contains(x + y, p)
    ensures !Contains(x, p)
    decreases |x|
  {
    if x != [] {
      assert (x + y)[1..] == x[1..] + y;
      PrefixNotContains(x[1..], y, p);
    }
  }

  /** With a whitespace-only separator, stripping the text before the split
      does not change the non-empty stripped pieces. */
  lemma PiecesOfStripped(s: string, sep: string)
    requires sep != [] && AllSpace(sep)
    ensures StrippedNonEmpty(Split(Strip(s), sep)) == StrippedNonEmpty(Split(s, sep))
  {
    var l := LStrip(s);
    var lead := s[..|s| - |l|];
    LStripSplit(s);
    PiecesOfSpacePrefix(lead, l, sep);
    var core := RStrip(l);
    RStripSplit(l);
    PiecesOfSpaceSuffix(core, l[|core|..], sep);
  }
}
