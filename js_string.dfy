/** The optional value used wherever the source returns a node or `null`, and a thrown error. */
module Maybe {
  datatype Option<+T> = None | Some(value: T)

  /** A computation that returns a value or fails with the message of the error it throws. */
  datatype Result<+T> = Ok(value: T) | Err(error: string)
}

/**
 * The JavaScript string and array built-ins the shell relies on:
 * `Array.prototype.join`, `String.prototype.split` with a one-character
 * separator, `String.prototype.trim` and `String.prototype.startsWith`.
 */
module JsString {

  /** `xs.join(sep)`: the elements with `sep` between neighbours; `[]` gives `""`. */
  function Join(xs: seq<string>, sep: string): string
  {
    if |xs| == 0 then ""
    else if |xs| == 1 then xs[0]
    else xs[0] + sep + Join(xs[1..], sep)
  }

  /**
   * `s.split(c)`: the maximal runs between occurrences of `c`, in order,
   * empty runs included. There is always at least one segment (`"".split(c)`
   * is `[""]`), no segment contains `c`, and joining them back gives `s`.
   */
  function Split(s: string, c: char): (r: seq<string>)
    ensures |r| >= 1
    ensures forall i :: 0 <= i < |r| ==> c !in r[i]
    ensures Join(r, [c]) == s
    decreases |s|
  {
    if s == [] then [""]
    else if s[0] == c then
      var rest := Split(s[1..], c);
      assert s == [c] + s[1..];
      [""] + rest
    else
      var rest := Split(s[1..], c);
      var r := [[s[0]] + rest[0]] + rest[1..];
      assert r[1..] == rest[1..];
      assert s == [s[0]] + s[1..];
      r
  }

  /** `s.startsWith(p)`. */
  predicate StartsWith(s: string, p: string)
  {
    |p| <= |s| && s[..|p|] == p
  }

  /** `arr.slice(n)`: the elements from index `n` on, or none when `n` is past the end. */
  function SliceFrom<T>(xs: seq<T>, n: nat): (r: seq<T>)
    ensures n <= |xs| ==> xs == xs[..n] + r
    ensures n >= |xs| ==> r == []
  {
    if n <= |xs| then xs[n..] else []
  }

  /** The characters `String.prototype.trim` removes: WhiteSpace and LineTerminator of ECMA-262. */
  predicate IsWhitespace(ch: char)
  {
    ch == '\t' || ch == '\n' || ch == '\U{000B}' || ch == '\U{000C}' || ch == '\r' || ch == ' '
    || ch == '\U{00A0}' || ch == '\U{1680}' || ('\U{2000}' <= ch <= '\U{200A}')
    || ch == '\U{2028}' || ch == '\U{2029}' || ch == '\U{202F}' || ch == '\U{205F}'
    || ch == '\U{3000}' || ch == '\U{FEFF}'
  }

  /** How many blanks `s` starts with: every char before that index is blank, the one at it is not. */
  function LeadingBlanks(s: string): (n: nat)
    ensures n <= |s|
    ensures forall k :: 0 <= k < n ==> IsWhitespace(s[k])
    ensures n < |s| ==> !IsWhitespace(s[n])
  {
    if s != [] && IsWhitespace(s[0]) then 1 + LeadingBlanks(s[1..]) else 0
  }

  /** Drops the trailing whitespace: what is left is a prefix that ends with a non-blank. */
  function TrimEnd(s: string): (r: string)
    ensures |r| <= |s| && r == s[..|r|]
    ensures forall k :: |r| <= k < |s| ==> IsWhitespace(s[k])
    ensures r != [] ==> !IsWhitespace(r[|r| - 1])
  {
    if s != [] && IsWhitespace(s[|s| - 1]) then TrimEnd(s[..|s| - 1]) else s
  }

  /**
   * `s.trim()`: the infix of `s` that starts after its leading blanks and
   * stops before its trailing blanks; it is empty or starts and ends with a
   * non-blank.
   */
  function Trim(s: string): (r: string)
    ensures LeadingBlanks(s) + |r| <= |s|
    ensures r == s[LeadingBlanks(s)..LeadingBlanks(s) + |r|]
    ensures forall k :: LeadingBlanks(s) + |r| <= k < |s| ==> IsWhitespace(s[k])
    ensures r != [] ==> !IsWhitespace(r[0]) && !IsWhitespace(r[|r| - 1])
  {
    TrimEnd(s[LeadingBlanks(s)..])
  }

  /** A string made only of blanks trims to the empty string. */
  lemma BlankTrimsToEmpty(s: string)
    requires forall k :: 0 <= k < |s| ==> IsWhitespace(s[k])
    ensures Trim(s) == ""
  {
  }

  /** Splitting a segment-free piece followed by the separator peels that piece off. */
  lemma {:induction false} SplitCons(a: string, c: char, t: string)
    requires c !in a
    ensures Split(a + [c] + t, c) == [a] + Split(t, c)
    decreases |a|
  {
    if a == [] {
      assert a + [c] + t == [c] + t;
    } else {
      SplitCons(a[1..], c, t);
      assert (a + [c] + t)[1..] == a[1..] + [c] + t;
      assert a == [a[0]] + a[1..];
    }
  }

  /** A string without the separator splits into itself. */
  lemma {:induction false} SplitPlain(a: string, c: char)
    requires c !in a
    ensures Split(a, c) == [a]
    decreases |a|
  {
    if a != [] {
      SplitPlain(a[1..], c);
      assert a == [a[0]] + a[1..];
    }
  }

  /**
   * Round trip the other way: joining separator-free segments and splitting
   * again gives the segments back.
   */
  lemma {:induction false} SplitJoin(xs: seq<string>, c: char)
    requires |xs| >= 1
    requires forall i :: 0 <= i < |xs| ==> c !in xs[i]
    ensures Split(Join(xs, [c]), c) == xs
    decreases |xs|
  {
    if |xs| == 1 {
      SplitPlain(xs[0], c);
    } else {
      SplitJoin(xs[1..], c);
      SplitCons(xs[0], c, Join(xs[1..], [c]));
      assert [xs[0]] + xs[1..] == xs;
    }
  }

  /** Joining two non-empty lists puts exactly one separator at the seam. */
  lemma {:induction false} JoinAppend(xs: seq<string>, ys: seq<string>, sep: string)
    requires |xs| >= 1 && |ys| >= 1
    ensures Join(xs + ys, sep) == Join(xs, sep) + sep + Join(ys, sep)
    decreases |xs|
  {
    if |xs| == 1 {
      assert (xs + ys)[1..] == ys;
    } else {
      JoinAppend(xs[1..], ys, sep);
      assert (xs + ys)[1..] == xs[1..] + ys;
    }
  }

  /** Splitting `x`, the separator and a separator-free tail gives the pieces of `x` and then the tail. */
  lemma {:induction false} SplitSnoc(x: string, c: char, seg: string)
    requires c !in seg
    ensures Split(x + [c] + seg, c) == Split(x, c) + [seg]
    decreases |x|
  {
    if x == [] {
      assert x + [c] + seg == [c] + seg;
      assert ([c] + seg)[1..] == seg;
      SplitPlain(seg, c);
    } else {
      SplitSnoc(x[1..], c, seg);
      assert (x + [c] + seg)[1..] == x[1..] + [c] + seg;
      assert (x + [c] + seg)[0] == x[0];
    }
  }

  /** `s.split(c).pop()`: the last piece is the part of `s` after its last separator. */
  function LastPiece(s: string, c: char): (r: string)
    ensures c !in r
    ensures |r| <= |s| && s[|s| - |r|..] == r
    ensures |r| < |s| ==> s[|s| - |r| - 1] == c
  {
    var pieces := Split(s, c);
    var n := |pieces|;
    if n >= 2 then
      JoinAppend(pieces[..n - 1], [pieces[n - 1]], [c]);
      assert pieces[..n - 1] + [pieces[n - 1]] == pieces;
      pieces[n - 1]
    else
      pieces[n - 1]
  }
}
