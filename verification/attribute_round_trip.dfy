/**
 * Rendering an attribute map with `to_s` and reading the text back with
 * `HTMLAttributes.new` gives the same map, for maps whose names and words the
 * attribute-string pattern can carry: names without `=`, `"` or whitespace,
 * and non-empty lists of words without `"`.
 */
module AttributeRoundTrip {
  import opened Wrappers
  import opened RubyStrings
  import opened OrderedHash
  import opened AttributeScan
  import opened HtmlAttributes

  /** A name that survives rendering, stripping and scanning. */
  predicate CleanName(n: string) {
    |n| > 0 && forall i :: 0 <= i < |n| ==> IsNameChar(n[i]) && !IsStrippable(n[i])
  }

  /** A word that survives rendering, scanning and splitting. */
  predicate CleanWord(w: string) {
    IsWord(w) && '"' !in w
  }

  predicate CleanWords(ws: seq<string>) {
    ws != [] && forall j :: 0 <= j < |ws| ==> CleanWord(ws[j])
  }

  /** A map that `to_s` renders faithfully. */
  predicate Canonical(m: AttrMap) {
    DistinctKeys(m) && forall i :: 0 <= i < |m| ==> CleanName(m[i].0) && CleanWords(m[i].1)
  }

  /** Each name with its words joined by spaces: what the attribute string carries. */
  function Joined(m: AttrMap): (r: Hash<string>)
    ensures |r| == |m| && forall i :: 0 <= i < |m| ==> r[i] == (m[i].0, Join(m[i].1, " "))
  {
    seq(|m|, i requires 0 <= i < |m| => (m[i].0, Join(m[i].1, " ")))
  }

  /** Words free of quotes join into a quote-free, non-empty value. */
  lemma {:induction false} JoinedWordsAreValue(ws: seq<string>)
    requires CleanWords(ws)
    ensures IsValueCapture(Join(ws, " "))
    decreases |ws|
  {
    var j := Join(ws, " ");
    JoinEnds(ws, " ");
    assert |j| > 0;
    if |ws| > 1 {
      JoinedWordsAreValue(ws[1..]);
      var t := Join(ws[1..], " ");
      assert j == ws[0] + " " + t;
      forall i | 0 <= i < |j| ensures j[i] != '"' {
        if i < |ws[0]| {
          assert j[i] == ws[0][i];
        } else if i > |ws[0]| {
          assert j[i] == t[i - |ws[0]| - 1];
        }
      }
    }
  }

  /** The rendered pairs, joined by spaces, preceded by a space, are the
      pattern's input ` n1="v1" n2="v2" ...`. */
  lemma {:induction false} SpacedJoin(m: AttrMap)
    requires m != []
    ensures " " + Join(PairTexts(m), " ") == Spaced(Joined(m))
    decreases |m|
  {
    var ts := PairTexts(m);
    var jm := Joined(m);
    assert ts[0] == Token(jm[0].0, jm[0].1);
    if |m| == 1 {
      assert jm[1..] == [];
    } else {
      SpacedJoin(m[1..]);
      assert ts[1..] == PairTexts(m[1..]);
      assert jm[1..] == Joined(m[1..]);
    }
  }

  /** A rendered non-empty canonical map is `n1="v1"` followed by ` n2="v2" ...`. */
  lemma RenderedTokens(m: AttrMap)
    requires Canonical(m) && m != []
    ensures Render(m) == Token(Joined(m)[0].0, Joined(m)[0].1) + Spaced(Joined(m)[1..])
  {
    var jm := Joined(m);
    var j, x, rest := Join(PairTexts(m), " "), Token(jm[0].0, jm[0].1), Spaced(jm[1..]);
    assert j == x + rest by {
      // both sides of the layout share the leading space
      SpacedJoin(m);
      assert " " + j == " " + (x + rest);
      assert j == (" " + j)[1..];
    }
    assert CleanName(m[0].0);
    RenderJoin(m);
  }

  /** Reading a rendered canonical map back yields each name once, holding its
      words joined by spaces. */
  lemma ParseRender(m: AttrMap)
    requires Canonical(m)
    ensures Hashify(Render(m)) == Joined(m)
  {
    var jm := Joined(m);
    if m == [] {
      StripEmpty();
    } else {
      RenderedTokens(m);
      forall i | 0 <= i < |jm| ensures Rescannable(jm[i]) {
        JoinedWordsAreValue(m[i].1);
      }
      ScanTokens(jm);
      assert DistinctKeys(jm);
      CollectDistinct(jm);
    }
  }

  /** `HTMLAttributes.new(attrs.to_s)` rebuilds `attrs` exactly: same names,
      same order, same words. */
  lemma RoundTrip(m: AttrMap)
    requires Canonical(m)
    ensures Added([], Some(AttrString(Render(m)))) == m
  {
    ParseRender(m);
    var a := AsValues(Joined(m));
    assert DistinctKeys(a);
    FormatDistinct(a);
    forall i | 0 <= i < |m| ensures Normalized(a)[i] == m[i] {
      SplitJoin(m[i].1);
    }
    assert Normalized(a) == m;
    MergeFresh([], m);
    assert [] + m == m;
  }
}
