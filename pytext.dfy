/** Python's `str.strip()` and `str.strip(chars)`: drop characters of a
    given class from both ends of a string, left end first. */
module PyText {

  /** The characters for which Python's `str.isspace()` holds, which is what
      `str.strip()` with no argument removes. */
  const SpaceChars: set<char> := {
    '\t', '\n', '\U{0B}', '\U{0C}', '\r',
    '\U{1C}', '\U{1D}', '\U{1E}', '\U{1F}', ' ',
    '\U{85}', '\U{A0}', '\U{1680}',
    '\U{2000}', '\U{2001}', '\U{2002}', '\U{2003}', '\U{2004}', '\U{2005}',
    '\U{2006}', '\U{2007}', '\U{2008}', '\U{2009}', '\U{200A}',
    '\U{2028}', '\U{2029}', '\U{202F}', '\U{205F}', '\U{3000}'
  }

  /** The argument of `str.strip('"')`. */
  const QuoteChars: set<char> := {'"'}

  /** Where the kept part of `s` starts when scanning forward from `i`:
      the first index at or after `i` whose character is not in `drop`,
      or `|s|`. */
  function StartOfKept(s: string, drop: set<char>, i: nat): (lo: nat)
    requires i <= |s|
    ensures i <= lo <= |s|
    ensures forall k :: i <= k < lo ==> s[k] in drop
    ensures lo < |s| ==> s[lo] !in drop
    decreases |s| - i
  {
    if i < |s| && s[i] in drop then StartOfKept(s, drop, i + 1) else i
  }

  /** Where the kept part of `s` ends when scanning backward from `j`: the
      least index `hi <= j` such that `s[hi..j]` lies in `drop`. */
  function EndOfKept(s: string, drop: set<char>, j: nat): (hi: nat)
    requires j <= |s|
    ensures hi <= j
    ensures forall k :: hi <= k < j ==> s[k] in drop
    ensures hi > 0 ==> s[hi - 1] !in drop
  {
    if j > 0 && s[j - 1] in drop then EndOfKept(s, drop, j - 1) else j
  }

  /** `s.strip(chars)`: the leading run of `drop` characters is removed,
      then the trailing one; a string made only of them becomes empty. The
      result neither starts nor ends with a droppable character. */
  function Strip(s: string, drop: set<char>): (r: string)
    ensures |r| <= |s|
    ensures r != [] ==> r[0] !in drop && r[|r| - 1] !in drop
  {
    var lo := StartOfKept(s, drop, 0);
    if lo == |s| then []
    else
      var hi := EndOfKept(s, drop, |s|);
      assert lo < hi;
      s[lo..hi]
  }

  predicate AllDrop(s: string, drop: set<char>)
  {
    forall i :: 0 <= i < |s| ==> s[i] in drop
  }

  /** `Strip` removes droppable characters only, and only at the two ends:
      the result is a contiguous piece of `s` and everything cut away on
      either side of it is in `drop`. */
  lemma StripIsInterior(s: string, drop: set<char>)
    ensures exists lo, hi :: 0 <= lo <= hi <= |s| && Strip(s, drop) == s[lo..hi]
                             && AllDrop(s[..lo], drop) && AllDrop(s[hi..], drop)
  {
    var lo := StartOfKept(s, drop, 0);
    if lo == |s| {
      assert Strip(s, drop) == s[lo..lo];
      assert AllDrop(s[..lo], drop);
    } else {
      var hi := EndOfKept(s, drop, |s|);
      assert AllDrop(s[..lo], drop) && AllDrop(s[hi..], drop);
    }
  }

  /** The forward scan over `x + y` stops inside `x`, or at the start of
      `y` when `y` begins with a kept character. */
  lemma {:induction false} StartOfKeptAppend(x: string, y: string, drop: set<char>, i: nat)
    requires i <= |x| && y != [] && y[0] !in drop
    ensures StartOfKept(x + y, drop, i) == StartOfKept(x, drop, i)
    decreases |x| - i
  {
    if i < |x| && x[i] in drop {
      StartOfKeptAppend(x, y, drop, i + 1);
    }
  }

  /** The backward scan over `x + y` stops inside `y`, or at the end of
      `x` when `x` ends with a kept character. */
  lemma {:induction false} EndOfKeptPrepend(x: string, y: string, drop: set<char>, j: nat)
    requires j <= |y| && x != [] && x[|x| - 1] !in drop
    ensures EndOfKept(x + y, drop, |x| + j) == |x| + EndOfKept(y, drop, j)
  {
    if j > 0 && y[j - 1] in drop {
      EndOfKeptPrepend(x, y, drop, j - 1);
    }
  }

  /** Stripping `pre + mid + post`, where `mid` begins and ends with kept
      characters, only cuts into `pre` and `post`: what remains of `pre`
      is a suffix of it and what remains of `post` a prefix. */
  lemma StripAround(pre: string, mid: string, post: string, drop: set<char>)
    requires mid != [] && mid[0] !in drop && mid[|mid| - 1] !in drop
    ensures var lo := StartOfKept(pre, drop, 0);
            var hi := EndOfKept(post, drop, |post|);
            Strip(pre + mid + post, drop) == pre[lo..] + mid + post[..hi]
  {
    var t := pre + mid + post;
    assert t == pre + (mid + post);
    StartOfKeptAppend(pre, mid + post, drop, 0);
    var x := pre + mid;
    assert t == x + post;
    assert x[|x| - 1] == mid[|mid| - 1];
    EndOfKeptPrepend(x, post, drop, |post|);
    var lo := StartOfKept(pre, drop, 0);
    var hi := EndOfKept(post, drop, |post|);
    assert StartOfKept(t, drop, 0) == lo < |t|;
    assert EndOfKept(t, drop, |t|) == |x| + hi;
    StripBetween(t, drop);
    SliceOfThree(pre, mid, post, lo, hi);
  }

  lemma StripBetween(s: string, drop: set<char>)
    requires StartOfKept(s, drop, 0) < |s|
    ensures StartOfKept(s, drop, 0) <= EndOfKept(s, drop, |s|)
    ensures Strip(s, drop) == s[StartOfKept(s, drop, 0)..EndOfKept(s, drop, |s|)]
  {
  }

  lemma SliceOfThree(pre: string, mid: string, post: string, lo: nat, hi: nat)
    requires lo <= |pre| && hi <= |post|
    ensures (pre + mid + post)[lo..|pre| + |mid| + hi] == pre[lo..] + mid + post[..hi]
  {
    var t := pre + mid + post;
    var u := pre[lo..] + mid + post[..hi];
    assert forall k :: 0 <= k < |u| ==> t[lo + k] == u[k];
  }

  /** Padding made only of droppable characters is undone by `Strip`. */
  lemma StripPadding(pre: string, mid: string, post: string, drop: set<char>)
    requires AllDrop(pre, drop) && AllDrop(post, drop)
    requires mid != [] && mid[0] !in drop && mid[|mid| - 1] !in drop
    ensures Strip(pre + mid + post, drop) == mid
  {
    StripAround(pre, mid, post, drop);
    AllDropScanned(pre, post, drop);
    assert pre[|pre|..] + mid + post[..0] == mid;
  }

  /** A string made only of droppable characters is scanned over entirely. */
  lemma AllDropScanned(pre: string, post: string, drop: set<char>)
    requires AllDrop(pre, drop) && AllDrop(post, drop)
    ensures StartOfKept(pre, drop, 0) == |pre| && EndOfKept(post, drop, |post|) == 0
  {
  }
}
