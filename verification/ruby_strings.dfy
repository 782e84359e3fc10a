/**
 * The three Ruby string built-ins the element builder leans on:
 * `String#split(' ')` (awk-style splitting on runs of whitespace),
 * `Array#join(sep)` and `String#strip`.
 */
module RubyStrings {

  /** The ASCII whitespace that `split(' ')` splits on. */
  predicate IsSpace(c: char) {
    c == ' ' || c == '\t' || c == '\n' || c == '\U{000B}' || c == '\U{000C}' || c == '\r'
  }

  /** What `strip` removes from either end: the whitespace above and NUL. */
  predicate IsStrippable(c: char) {
    IsSpace(c) || c == '\0'
  }

  /** A token `split(' ')` can produce: non-empty and free of whitespace. */
  predicate IsWord(w: string) {
    |w| > 0 && forall i :: 0 <= i < |w| ==> !IsSpace(w[i])
  }

  /** Length of the leading run of non-whitespace characters of `s`. */
  function WordEnd(s: string): (n: nat)
    ensures n <= |s|
    ensures forall i :: 0 <= i < n ==> !IsSpace(s[i])
    ensures n < |s| ==> IsSpace(s[n])
  {
    if s == [] || IsSpace(s[0]) then 0 else 1 + WordEnd(s[1..])
  }

  /** `s.split(' ')`: leading whitespace is skipped, runs of whitespace separate tokens. */
  function Split(s: string): (r: seq<string>)
    ensures forall i :: 0 <= i < |r| ==> IsWord(r[i])
    decreases |s|
  {
    if s == [] then []
    else if IsSpace(s[0]) then Split(s[1..])
    else
      var n := WordEnd(s);
      [s[..n]] + Split(s[n..])
  }

  /** `xs.join(sep)`. */
  function Join(xs: seq<string>, sep: string): string
  {
    if xs == [] then ""
    else if |xs| == 1 then xs[0]
    else xs[0] + sep + Join(xs[1..], sep)
  }

  /** `s.lstrip`: drops the strippable prefix. */
  function LStrip(s: string): (r: string)
    ensures |r| <= |s| && r == s[|s| - |r|..]
    ensures forall i :: 0 <= i < |s| - |r| ==> IsStrippable(s[i])
    ensures r == [] || !IsStrippable(r[0])
  {
    if s == [] || !IsStrippable(s[0]) then s else LStrip(s[1..])
  }

  /** `s.rstrip`: drops the strippable suffix. */
  function RStrip(s: string): (r: string)
    ensures |r| <= |s| && r == s[..|r|]
    ensures forall i :: |r| <= i < |s| ==> IsStrippable(s[i])
    ensures r == [] || !IsStrippable(r[|r| - 1])
  {
    if s == [] || !IsStrippable(s[|s| - 1]) then s else RStrip(s[..|s| - 1])
  }

  /** `s.strip`. */
  function Strip(s: string): (r: string)
    ensures r == [] || (!IsStrippable(r[0]) && !IsStrippable(r[|r| - 1]))
  {
    RStrip(LStrip(s))
  }

  /** Stripping a string that has no strippable character at either end, followed
      only by strippable characters, gives back exactly that string. */
  lemma StripPadded(s: string, pad: string)
    requires s != [] && !IsStrippable(s[0]) && !IsStrippable(s[|s| - 1])
    requires forall i :: 0 <= i < |pad| ==> IsStrippable(pad[i])
    ensures Strip(s + pad) == s
  {
    var t := s + pad;
    assert LStrip(t) == t;
    var r := RStrip(t);
    assert t[|s| - 1] == s[|s| - 1];
    forall i | |s| <= i < |t|
      ensures IsStrippable(t[i])
    {
      assert t[i] == pad[i - |s|];
    }
    assert |r| == |s|;
    assert r == t[..|s|] == s;
  }

  lemma StripEmpty()
    ensures Strip("") == ""
  {
  }

  /** Splitting a string made of words joined by single spaces gives the words back. */
  lemma {:induction false} SplitJoin(ws: seq<string>)
    requires forall i :: 0 <= i < |ws| ==> IsWord(ws[i])
    ensures Split(Join(ws, " ")) == ws
    decreases |ws|
  {
    SplitOfJoin(ws);
    SplitAllWords(ws);
  }

  lemma {:induction false} SplitAllWords(ws: seq<string>)
    requires forall i :: 0 <= i < |ws| ==> IsWord(ws[i])
    ensures SplitAll(ws) == ws
    decreases |ws|
  {
    if ws != [] {
      SplitWord(ws[0], "");
      assert ws[0] + "" == ws[0];
      SplitAllWords(ws[1..]);
    }
  }

  /** A word followed by nothing or by whitespace comes out of `Split` whole. */
  lemma SplitWord(w: string, t: string)
    requires IsWord(w)
    requires t == [] || IsSpace(t[0])
    ensures Split(w + t) == [w] + Split(t)
  {
    var s := w + t;
    WordEndOf(w, t);
    assert s[..|w|] == w && s[|w|..] == t;
  }

  /** A single word splits to itself. */
  lemma SplitOneWord(w: string)
    ensures IsWord(w) ==> Split(w) == [w]
  {
    if IsWord(w) {
      SplitWord(w, "");
      assert w + "" == w;
    }
  }

  lemma {:induction false} WordEndOf(w: string, t: string)
    requires forall i :: 0 <= i < |w| ==> !IsSpace(w[i])
    requires t == [] || IsSpace(t[0])
    ensures WordEnd(w + t) == |w|
    decreases |w|
  {
    if w != [] {
      assert (w + t)[1..] == w[1..] + t;
      WordEndOf(w[1..], t);
    }
  }

  /** Joining two strings with a space and splitting the result is splitting each
      part and concatenating: `(a + " " + b).split(' ') == a.split(' ') + b.split(' ')`. */
  lemma {:induction false} SplitAtSpace(a: string, b: string)
    ensures Split(a + " " + b) == Split(a) + Split(b)
    decreases |a|
  {
    var s := a + " " + b;
    if a == [] {
      assert s[1..] == b;
    } else if IsSpace(a[0]) {
      assert s[1..] == a[1..] + " " + b;
      SplitAtSpace(a[1..], b);
    } else {
      var n := WordEnd(a);
      WordEndOf(a[..n], a[n..] + " " + b);
      assert a[..n] + (a[n..] + " " + b) == s;
      assert s[..n] == a[..n] && s[n..] == a[n..] + " " + b;
      SplitAtSpace(a[n..], b);
    }
  }

  /** `Split` of a space-joined list is the concatenation of the splits. */
  lemma {:induction false} SplitOfJoin(xs: seq<string>)
    ensures Split(Join(xs, " ")) == SplitAll(xs)
    decreases |xs|
  {
    if |xs| > 1 {
      SplitAtSpace(xs[0], Join(xs[1..], " "));
      SplitOfJoin(xs[1..]);
    }
  }

  /** The concatenation of the splits of every element of `xs`. */
  function SplitAll(xs: seq<string>): seq<string>
  {
    if xs == [] then [] else Split(xs[0]) + SplitAll(xs[1..])
  }

  lemma {:induction false} JoinSnoc(xs: seq<string>, x: string, sep: string)
    requires xs != []
    ensures Join(xs + [x], sep) == Join(xs, sep) + sep + x
    decreases |xs|
  {
    if |xs| == 1 {
      assert xs + [x] == [xs[0], x];
    } else {
      assert (xs + [x])[1..] == xs[1..] + [x];
      JoinSnoc(xs[1..], x, sep);
    }
  }

  /** A joined list starts with its first element and ends with its last. */
  lemma JoinEnds(xs: seq<string>, sep: string)
    requires xs != []
    ensures |Join(xs, sep)| >= |xs[0]| && Join(xs, sep)[..|xs[0]|] == xs[0]
    ensures |Join(xs, sep)| >= |xs[|xs| - 1]|
    ensures Join(xs, sep)[|Join(xs, sep)| - |xs[|xs| - 1]|..] == xs[|xs| - 1]
  {
    if |xs| > 1 {
      var init := xs[..|xs| - 1];
      JoinSnoc(init, xs[|xs| - 1], sep);
      assert init + [xs[|xs| - 1]] == xs;
    }
  }

  /** Strip gives the empty string only for text made entirely of strippable characters. */
  lemma StripToEmpty(s: string, i: nat)
    requires Strip(s) == "" && i < |s|
    ensures IsStrippable(s[i])
  {
    var l := LStrip(s);
    if i >= |s| - |l| {
      assert s[i] == l[i - (|s| - |l|)];
    }
  }
}
