/**
 * The string and iterator primitives the reader is built from, with the
 * meaning Rust's standard library and nom give them: `char::is_whitespace`,
 * `str::trim`, `str::split_whitespace`, `str::contains`,
 * `char::to_ascii_uppercase` and `Iterator::filter_map`, and the scans
 * nom's `take_while` and `space0` perform.
 */
module Text {
  import opened Wrappers
  import opened Chars

  predicate AllWhitespace(s: string) {
    forall k :: 0 <= k < |s| ==> IsWhitespace(s[k])
  }

  /** `s.starts_with(c)` for a character pattern. */
  predicate StartsWith(s: string, c: char) {
    |s| > 0 && s[0] == c
  }

  predicate HasPrefix(s: string, pat: string) {
    |pat| <= |s| && s[..|pat|] == pat
  }

  /** `s.contains(pat)` for a string pattern: never true of a pattern longer than s. */
  predicate Contains(s: string, pat: string): (b: bool)
    ensures b ==> |pat| <= |s|
    decreases |s|
  {
    HasPrefix(s, pat) || (s != [] && Contains(s[1..], pat))
  }

  /** pat occurs in s starting at index i. */
  ghost predicate OccursAt(s: string, pat: string, i: nat) {
    i + |pat| <= |s| && s[i..i + |pat|] == pat
  }

  /** An occurrence at any index is found by contains. */
  lemma {:induction false} OccursContains(s: string, pat: string, i: nat)
    requires OccursAt(s, pat, i)
    ensures Contains(s, pat)
    decreases i
  {
    if i == 0 {
      assert s[..|pat|] == s[0..|pat|];
    } else {
      assert s[1..][i - 1..i - 1 + |pat|] == s[i..i + |pat|];
      OccursContains(s[1..], pat, i - 1);
    }
  }

  /** What contains finds is an occurrence at some index. */
  lemma {:induction false} ContainsOccurs(s: string, pat: string)
    requires Contains(s, pat)
    ensures exists i: nat :: OccursAt(s, pat, i)
    decreases |s|
  {
    if HasPrefix(s, pat) {
      assert s[0..|pat|] == s[..|pat|];
      assert OccursAt(s, pat, 0);
    } else {
      ContainsOccurs(s[1..], pat);
      var i: nat :| OccursAt(s[1..], pat, i);
      assert s[1..][i..i + |pat|] == s[i + 1..i + 1 + |pat|];
      assert OccursAt(s, pat, i + 1);
    }
  }

  /** `str::contains` holds exactly when the pattern occurs at some index. */
  lemma {:induction false} ContainsAt(s: string, pat: string)
    ensures Contains(s, pat) <==> exists i: nat :: OccursAt(s, pat, i)
  {
    if Contains(s, pat) {
      ContainsOccurs(s, pat);
    }
    forall i: nat | OccursAt(s, pat, i) ensures Contains(s, pat) {
      OccursContains(s, pat, i);
    }
  }

  /** `char::to_ascii_uppercase`: only 'a'..'z' change. */
  function ToAsciiUppercase(c: char): (u: char)
    ensures 'a' <= c <= 'z' ==> u as int == c as int - 32
    ensures !('a' <= c <= 'z') ==> u == c
  {
    if 'a' <= c <= 'z' then (c as int - 32) as char else c
  }

  /** A string trim leaves alone: no whitespace at either end. */
  predicate IsTrimmed(s: string) {
    s == [] || (!IsWhitespace(s[0]) && !IsWhitespace(s[|s| - 1]))
  }

  /** Rust's `str::trim_start`: never longer, and starting with no whitespace. */
  function TrimStart(s: string): (r: string)
    ensures |r| <= |s|
    ensures r == [] || !IsWhitespace(r[0])
    decreases |s|
  {
    if s != [] && IsWhitespace(s[0]) then TrimStart(s[1..]) else s
  }

  /**
   * trim_start removes a prefix of whitespace and stops at the first
   * character that is not whitespace; what is left is a suffix of s.
   */
  lemma {:induction false} TrimStartFacts(s: string)
    ensures |TrimStart(s)| <= |s|
    ensures TrimStart(s) == s[|s| - |TrimStart(s)|..]
    ensures forall k :: 0 <= k < |s| - |TrimStart(s)| ==> IsWhitespace(s[k])
    ensures TrimStart(s) == [] || !IsWhitespace(TrimStart(s)[0])
    decreases |s|
  {
    if s != [] && IsWhitespace(s[0]) {
      TrimStartFacts(s[1..]);
    }
  }

  /** Rust's `str::trim_end`: never longer, and ending with no whitespace. */
  function TrimEnd(s: string): (r: string)
    ensures |r| <= |s|
    ensures r == [] || !IsWhitespace(r[|r| - 1])
  {
    if s != [] && IsWhitespace(s[|s| - 1]) then TrimEnd(s[..|s| - 1]) else s
  }

  /**
   * trim_end removes a suffix of whitespace and stops after the last
   * character that is not whitespace; what is left is a prefix of s.
   */
  lemma {:induction false} TrimEndFacts(s: string)
    ensures |TrimEnd(s)| <= |s| && TrimEnd(s) == s[..|TrimEnd(s)|]
    ensures forall k :: |TrimEnd(s)| <= k < |s| ==> IsWhitespace(s[k])
    ensures TrimEnd(s) == [] || !IsWhitespace(TrimEnd(s)[|TrimEnd(s)| - 1])
  {
    if s != [] && IsWhitespace(s[|s| - 1]) {
      TrimEndFacts(s[..|s| - 1]);
    }
  }

  /** Rust's `str::trim`: whitespace removed at both ends, so none is left at either. */
  function Trim(s: string): (r: string)
    ensures |r| <= |s|
    ensures IsTrimmed(r)
  {
    TrimEndFacts(TrimStart(s));
    TrimEnd(TrimStart(s))
  }

  /**
   * trim leaves no whitespace at either end, and leaves nothing exactly
   * when its argument is all whitespace.
   */
  lemma {:induction false} TrimFacts(s: string)
    ensures |Trim(s)| <= |s|
    ensures IsTrimmed(Trim(s))
    ensures Trim(s) == [] <==> AllWhitespace(s)
  {
    var t := TrimStart(s);
    var r := TrimEnd(t);
    TrimStartFacts(s);
    TrimEndFacts(t);
    assert t != [] ==> t[0] == s[|s| - |t|];
    assert r != [] ==> r[0] == t[0];
  }

  /** trim returns a contiguous piece of its argument. */
  lemma {:induction false} TrimSlice(s: string) returns (a: nat)
    ensures a + |Trim(s)| <= |s| && Trim(s) == s[a..a + |Trim(s)|]
  {
    var t := TrimStart(s);
    TrimStartFacts(s);
    TrimEndFacts(t);
    a := |s| - |t|;
    assert Trim(s) == t[..|Trim(s)|];
  }

  /** trim_start stops at the first character that is not whitespace. */
  lemma {:induction false} TrimStartUnique(s: string, k: nat)
    requires k <= |s|
    requires forall i :: 0 <= i < k ==> IsWhitespace(s[i])
    requires k == |s| || !IsWhitespace(s[k])
    ensures TrimStart(s) == s[k..]
  {
    var r := TrimStart(s);
    var a := |s| - |r|;
    TrimStartFacts(s);
    assert a < |s| ==> r[0] == s[a];
    assert a == k;
  }

  /** trim_start leaves a string that does not start with whitespace as it is. */
  lemma {:induction false} TrimStartNone(x: string)
    requires x == [] || !IsWhitespace(x[0])
    ensures TrimStart(x) == x
  {
  }

  /** trim_end stops after the last character that is not whitespace. */
  lemma {:induction false} TrimEndUnique(s: string, k: nat)
    requires k <= |s|
    requires forall i :: k <= i < |s| ==> IsWhitespace(s[i])
    requires k == 0 || !IsWhitespace(s[k - 1])
    ensures TrimEnd(s) == s[..k]
  {
    var r := TrimEnd(s);
    TrimEndFacts(s);
    assert |r| > 0 ==> r[|r| - 1] == s[|r| - 1];
    assert |r| == k;
  }

  /** trim is the identity on a string without whitespace at either end, so it is idempotent. */
  lemma {:induction false} TrimFixed(x: string)
    requires x == [] || (!IsWhitespace(x[0]) && !IsWhitespace(x[|x| - 1]))
    ensures Trim(x) == x
  {
    TrimStartNone(x);
  }

  lemma {:induction false} TrimIdempotent(s: string)
    ensures Trim(Trim(s)) == Trim(s)
  {
    TrimFacts(s);
    TrimFixed(Trim(s));
  }

  /** Whitespace in front of a string changes neither trim_start nor trim. */
  lemma {:induction false} TrimStartPadded(w: string, x: string)
    requires AllWhitespace(w)
    ensures TrimStart(w + x) == TrimStart(x)
  {
    var a := |x| - |TrimStart(x)|;
    TrimStartFacts(x);
    var s := w + x;
    assert forall i :: |w| <= i < |w| + a ==> s[i] == x[i - |w|];
    assert |w| + a < |s| ==> s[|w| + a] == x[a];
    TrimStartUnique(s, |w| + a);
    assert s[|w| + a..] == x[a..];
  }

  lemma {:induction false} TrimPadded(w: string, x: string)
    requires AllWhitespace(w)
    ensures Trim(w + x) == Trim(x)
  {
    TrimStartPadded(w, x);
  }

  /** Whitespace on both sides of a trimmed string is exactly what trim removes. */
  lemma {:induction false} TrimSurrounded(w1: string, x: string, w2: string)
    requires AllWhitespace(w1) && AllWhitespace(w2) && IsTrimmed(x)
    ensures Trim(w1 + x + w2) == x
  {
    var s := w1 + x + w2;
    if x == [] {
      TrimFacts(s);
      assert AllWhitespace(s) by {
        forall k | 0 <= k < |s| ensures IsWhitespace(s[k]) {
          if k < |w1| { assert s[k] == w1[k]; } else { assert s[k] == w2[k - |w1|]; }
        }
      }
    } else {
      assert forall k :: 0 <= k < |w1| ==> s[k] == w1[k];
      assert s[|w1|] == x[0];
      TrimStartUnique(s, |w1|);
      var t := x + w2;
      assert s[|w1|..] == t;
      assert forall k :: 0 <= k < |w2| ==> t[|x| + k] == w2[k];
      assert t[|x| - 1] == x[|x| - 1];
      TrimEndUnique(t, |x|);
      assert t[..|x|] == x;
    }
  }

  /** Rust's `str::split_whitespace`: the maximal runs of non-whitespace characters, in order. */
  function SplitWhitespace(s: string): (r: seq<string>)
    ensures forall i :: 0 <= i < |r| ==> r[i] != [] && forall k :: 0 <= k < |r[i]| ==> !IsWhitespace(r[i][k])
    decreases |s|
  {
    var t := TrimStart(s);
    TrimStartFacts(s);
    if t == [] then []
    else
      var j := Span(t, 0, NotWhitespace);
      SpanAll(t, 0, NotWhitespace);
      [t[..j]] + SplitWhitespace(t[j..])
  }

  /** A blank string has no words. */
  lemma {:induction false} SplitBlank(s: string)
    ensures AllWhitespace(s) ==> SplitWhitespace(s) == []
  {
    TrimStartFacts(s);
  }

  /** Words joined by single spaces: the reference for what split_whitespace undoes. */
  function JoinWords(ws: seq<string>): string
  {
    if ws == [] then []
    else if |ws| == 1 then ws[0]
    else ws[0] + " " + JoinWords(ws[1..])
  }

  predicate IsWord(w: string) {
    w != [] && forall k :: 0 <= k < |w| ==> !IsWhitespace(w[k])
  }

  /** Whitespace in front of a string does not change how it splits. */
  lemma {:induction false} SplitPadded(w: string, x: string)
    requires AllWhitespace(w)
    ensures SplitWhitespace(w + x) == SplitWhitespace(x)
  {
    TrimStartPadded(w, x);
  }

  /** A word followed by nothing or by whitespace is split off as the first word. */
  lemma {:induction false} SplitWordFirst(w: string, tail: string)
    requires IsWord(w)
    requires tail == [] || IsWhitespace(tail[0])
    ensures SplitWhitespace(w + tail) == [w] + SplitWhitespace(tail)
  {
    var s := w + tail;
    TrimStartNone(s);
    assert forall i :: 0 <= i < |w| ==> s[i] == w[i];
    assert |w| < |s| ==> s[|w|] == tail[0];
    SpanUnique(s, 0, |w|, NotWhitespace);
    assert s[..|w|] == w && s[|w|..] == tail;
  }

  lemma {:induction false} SplitWordSpace(w: string, x: string)
    requires IsWord(w)
    ensures SplitWhitespace(w + (" " + x)) == [w] + SplitWhitespace(x)
  {
    var t := " " + x;
    assert SplitWhitespace(t) == SplitWhitespace(x) by {
      assert AllWhitespace(" ");
      SplitPadded(" ", x);
    }
    assert SplitWhitespace(w + t) == [w] + SplitWhitespace(t) by {
      assert IsWhitespace(t[0]);
      SplitWordFirst(w, t);
    }
  }

  /** split_whitespace recovers the words that were joined with spaces. */
  lemma {:induction false} SplitJoin(ws: seq<string>)
    requires forall i :: 0 <= i < |ws| ==> IsWord(ws[i])
    ensures SplitWhitespace(JoinWords(ws)) == ws
  {
    if |ws| == 1 {
      SplitWordFirst(ws[0], []);
      assert ws[0] + [] == ws[0];
    } else if |ws| > 1 {
      assert JoinWords(ws) == ws[0] + (" " + JoinWords(ws[1..]));
      SplitWordSpace(ws[0], JoinWords(ws[1..]));
      SplitJoin(ws[1..]);
      assert [ws[0]] + ws[1..] == ws;
    }
  }

  /** `iter.filter_map(f).collect()`: the Some results of f, in order. */
  function FilterMap<T, U>(xs: seq<T>, f: T -> Option<U>): (r: seq<U>)
    ensures |r| <= |xs|
  {
    if xs == [] then []
    else (match f(xs[0]) case Some(y) => [y] case None => []) + FilterMap(xs[1..], f)
  }

  /** filter_map keeps order: it distributes over concatenation. */
  lemma {:induction false} FilterMapAppend<T, U>(a: seq<T>, b: seq<T>, f: T -> Option<U>)
    ensures FilterMap(a + b, f) == FilterMap(a, f) + FilterMap(b, f)
  {
    if a != [] {
      assert (a + b)[0] == a[0];
      assert (a + b)[1..] == a[1..] + b;
      FilterMapAppend(a[1..], b, f);
    } else {
      assert a + b == b;
    }
  }

  /** An element survives filter_map exactly when f accepts it. */
  lemma {:induction false} FilterMapOne<T, U>(x: T, f: T -> Option<U>)
    ensures FilterMap([x], f) == (if f(x).Some? then [f(x).value] else [])
  {
    assert [x][1..] == [];
  }
}
