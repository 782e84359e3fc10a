/**
 * `HTMLAttributes`: an insertion-ordered map from attribute name to a list of
 * value words, built from attribute strings or hashes, merged, replaced,
 * deleted from, and rendered as `name="v1 v2" ...`.
 *
 * The specification functions below describe what each operation of the class
 * computes on the map; the class at the end performs the same steps in place.
 */
module HtmlAttributes {
  import opened Wrappers
  import opened RubyStrings
  import opened OrderedHash
  import opened AttributeScan

  /** A value in a Hash handed to `<<` or `replace`: a String (split on
      whitespace) or an Array of words (kept as given). */
  datatype Value = Str(text: string) | Arr(items: seq<string>)

  /** What `<<`, `new` and `replace` accept: an attribute string or a Hash. */
  datatype Input = AttrString(text: string) | AttrHash(hash: Hash<Value>)

  /** The argument of `delete`: one name or an array of further arguments,
      nested to any depth. */
  datatype Names = OneName(name: string) | NameList(items: seq<Names>)

  /** The `content` Hash: attribute name to its list of value words. */
  type AttrMap = Hash<seq<string>>

  /** `v.split ' '` for a String, the Array itself otherwise. */
  function Normalize(v: Value): (r: seq<string>)
    ensures v.Str? ==> forall i :: 0 <= i < |r| ==> IsWord(r[i])
    ensures v.Str? && IsWord(v.text) ==> r == [v.text]
  {
    match v
    case Str(t) => SplitOneWord(t); Split(t)
    case Arr(xs) => xs
  }

  /** The `formatted_new` Hash of `add_hash`: each pair stored under its key
      with its value normalized; a key given twice keeps its first position and
      its last value. */
  function Format(h: Hash<Value>): (r: AttrMap)
    ensures DistinctKeys(r)
    ensures forall k :: HasKey(r, k) <==> HasKey(h, k)
    decreases |h|
  {
    if h == [] then []
    else
      var x := Format(h[..|h| - 1]);
      var (k, v) := h[|h| - 1];
      PutLookup(x, k, Normalize(v));
      PutKeys(x, k, Normalize(v));
      HasKeySnoc(h[..|h| - 1], h[|h| - 1]);
      assert h[..|h| - 1] + [h[|h| - 1]] == h;
      Put(x, k, Normalize(v))
  }

  /** Every value of `h` normalized, keys and order untouched. */
  function Normalized(h: Hash<Value>): (r: AttrMap)
    ensures |r| == |h|
  {
    seq(|h|, i requires 0 <= i < |h| => (h[i].0, Normalize(h[i].1)))
  }

  /** When the keys of `h` are already distinct, formatting only normalizes
      the values. */
  lemma {:induction false} FormatDistinct(h: Hash<Value>)
    requires DistinctKeys(h)
    ensures Format(h) == Normalized(h)
    decreases |h|
  {
    if h != [] {
      var init := h[..|h| - 1];
      var (k, v) := h[|h| - 1];
      assert DistinctKeys(init);
      FormatDistinct(init);
      assert !HasKey(init, k);
      assert Format(h) == Put(Normalized(init), k, Normalize(v));
      assert Normalized(init) + [(k, Normalize(v))] == Normalized(h);
    }
  }

  /** `h.transform_keys(&:to_sym)`: keys that collapse together keep the first
      position and the last value. */
  function Rekey(h: Hash<Value>): (r: Hash<Value>)
    ensures DistinctKeys(r)
    ensures forall k :: HasKey(r, k) <==> HasKey(h, k)
    decreases |h|
  {
    if h == [] then []
    else
      var x := Rekey(h[..|h| - 1]);
      var (k, v) := h[|h| - 1];
      PutLookup(x, k, v);
      PutKeys(x, k, v);
      HasKeySnoc(h[..|h| - 1], h[|h| - 1]);
      assert h[..|h| - 1] + [h[|h| - 1]] == h;
      Put(x, k, v)
  }

  /** Keys that collapse together under `transform_keys` keep the position of
      their first occurrence and hold the value of their last. */
  lemma {:induction false} RekeyOrder(h: Hash<Value>)
    ensures Keys(Rekey(h)) == FirstKeys(h)
    ensures forall k :: Get(Rekey(h), k) == LastValue(h, k)
    decreases |h|
  {
    if h != [] {
      var init := h[..|h| - 1];
      var (k, v) := h[|h| - 1];
      RekeyOrder(init);
      PutOrder(Rekey(init), k, v);
      PutLookup(Rekey(init), k, v);
    }
  }

  /** A Hash whose keys are already distinct comes through `transform_keys`
      unchanged. */
  lemma {:induction false} RekeyDistinct(h: Hash<Value>)
    requires DistinctKeys(h)
    ensures Rekey(h) == h
    decreases |h|
  {
    if h != [] {
      var init := h[..|h| - 1];
      var (k, v) := h[|h| - 1];
      assert DistinctKeys(init);
      RekeyDistinct(init);
      assert !HasKey(init, k);
      PutFresh(init, k, v);
      assert init + [(k, v)] == h;
    }
  }

  /** A Hash of strings seen as a Hash of `Value`s. */
  function AsValues(h: Hash<string>): (r: Hash<Value>)
    ensures |r| == |h|
    ensures forall i :: 0 <= i < |h| ==> r[i] == (h[i].0, Str(h[i].1))
  {
    seq(|h|, i requires 0 <= i < |h| => (h[i].0, Str(h[i].1)))
  }

  /** One step of `merge!` with the concatenating block: an existing name
      keeps its position and gets `vs` appended, a new name goes at the end. */
  function MergeOne(m: AttrMap, k: string, vs: seq<string>): (r: AttrMap)
    requires DistinctKeys(m)
    ensures DistinctKeys(r)
    ensures IndexOf(m, k) >= 0 ==> r == m[IndexOf(m, k) := (k, m[IndexOf(m, k)].1 + vs)]
    ensures IndexOf(m, k) < 0 ==> r == m + [(k, vs)]
  {
    var nv := match Get(m, k) case Some(prev) => prev + vs case None => vs;
    PutLookup(m, k, nv);
    Put(m, k, nv)
  }

  /** `m.merge!(f) { |_, oldval, newval| oldval.concat newval }`. */
  function Merge(m: AttrMap, f: AttrMap): (r: AttrMap)
    requires DistinctKeys(m)
    ensures DistinctKeys(r)
    decreases |f|
  {
    if f == [] then m
    else MergeOne(Merge(m, f[..|f| - 1]), f[|f| - 1].0, f[|f| - 1].1)
  }

  /** What a name reads as after merging: the old words followed by the new. */
  function Combine(a: Option<seq<string>>, b: Option<seq<string>>): Option<seq<string>>
  {
    match a
    case None => b
    case Some(x) => match b case None => a case Some(y) => Some(x + y)
  }

  /** After a merge every name holds its old words followed by its new words. */
  lemma {:induction false} MergeLookup(m: AttrMap, f: AttrMap)
    requires DistinctKeys(m) && DistinctKeys(f)
    ensures forall k :: Get(Merge(m, f), k) == Combine(Get(m, k), Get(f, k))
    decreases |f|
  {
    if f != [] {
      var g := f[..|f| - 1];
      var (k0, v0) := f[|f| - 1];
      assert DistinctKeys(g);
      MergeLookup(m, g);
      var x := Merge(m, g);
      assert !HasKey(g, k0);
      assert g + [(k0, v0)] == f;
      PutFresh(g, k0, v0);
      var nv := match Get(x, k0) case Some(prev) => prev + v0 case None => v0;
      PutLookup(x, k0, nv);
      assert Merge(m, f) == Put(x, k0, nv);
      forall k ensures Get(Merge(m, f), k) == Combine(Get(m, k), Get(f, k)) {
        if k == k0 {
          assert Get(g, k0) == None;
          assert Get(x, k0) == Get(m, k0);
        }
      }
    }
  }

  /** Merging names that are all new appends them, in order. */
  lemma {:induction false} MergeFresh(m: AttrMap, f: AttrMap)
    requires DistinctKeys(m) && DistinctKeys(f)
    requires forall k :: HasKey(f, k) ==> !HasKey(m, k)
    ensures Merge(m, f) == m + f
    decreases |f|
  {
    if f != [] {
      var g := f[..|f| - 1];
      var e := f[|f| - 1];
      assert DistinctKeys(g);
      assert g + [e] == f;
      HasKeySnoc(g, e);
      MergeFresh(m, g);
      HasKeyConcat(m, g);
      assert !HasKey(g, e.0);
      assert !HasKey(m + g, e.0);
      assert m + g + [e] == m + f;
    }
  }

  /** The names of `names`. */
  function NameSet(names: seq<string>): set<string>
  {
    set i | 0 <= i < |names| :: names[i]
  }

  /** `n` occurs somewhere in `trash`, at any depth. */
  predicate Mentions(trash: Names, n: string)
    decreases trash
  {
    match trash
    case OneName(m) => m == n
    case NameList(ts) => exists i :: 0 <= i < |ts| && Mentions(ts[i], n)
  }

  /** `[trash].flatten`: the names of `trash`, depth-first from left to right. */
  function NamesOf(trash: Names): (r: seq<string>)
    ensures forall n :: n in r <==> Mentions(trash, n)
    decreases trash, 1
  {
    match trash
    case OneName(n) => [n]
    case NameList(ts) => NamesOfAll(ts)
  }

  function NamesOfAll(ts: seq<Names>): (r: seq<string>)
    ensures forall n :: n in r <==> exists i :: 0 <= i < |ts| && Mentions(ts[i], n)
    decreases ts, 0
  {
    if ts == [] then []
    else
      var r := NamesOf(ts[0]) + NamesOfAll(ts[1..]);
      assert forall n :: (exists i :: 0 <= i < |ts| && Mentions(ts[i], n)) <==>
        Mentions(ts[0], n) || exists i :: 0 <= i < |ts[1..]| && Mentions(ts[1..][i], n) by {
        forall n, i | 0 < i < |ts| && Mentions(ts[i], n)
          ensures exists j :: 0 <= j < |ts[1..]| && Mentions(ts[1..][j], n)
        {
          assert ts[1..][i - 1] == ts[i];
        }
      }
      r
  }

  /** A flat list of names as a `delete` argument. */
  function Listed(ns: seq<string>): Names
  {
    NameList(seq(|ns|, i requires 0 <= i < |ns| => OneName(ns[i])))
  }

  /** A flat array of names is deleted name by name, in order. */
  lemma {:induction false} NamesOfListed(ns: seq<string>)
    ensures NamesOf(Listed(ns)) == ns
    decreases |ns|
  {
    if ns != [] {
      var ts := Listed(ns).items;
      assert ts[0] == OneName(ns[0]);
      assert ts[1..] == Listed(ns[1..]).items;
      assert NamesOf(Listed(ns)) == NamesOf(ts[0]) + NamesOfAll(ts[1..]);
      NamesOfListed(ns[1..]);
      assert [ns[0]] + ns[1..] == ns;
    }
  }

  /** Deleting `names` one after the other removes exactly those names and
      keeps every other entry in order. */
  function Removed(m: AttrMap, names: seq<string>): (r: AttrMap)
    requires DistinctKeys(m)
    ensures r == Without(m, NameSet(names))
    ensures DistinctKeys(r)
    decreases |names|
  {
    WithoutKeepsDistinct(m, NameSet(names));
    if names == [] then
      WithoutNothing(m, NameSet(names));
      m
    else
      var init := names[..|names| - 1];
      var last := names[|names| - 1];
      var p := Removed(m, init);
      WithoutKeepsDistinct(m, NameSet(init));
      WithoutTwice(m, NameSet(init), {last});
      assert NameSet(init) + {last} == NameSet(names) by {
        assert names == init + [last];
      }
      OrderedHash.Delete(p, last)
  }

  /** Deleting one more name is one more `Hash#delete`. */
  lemma RemovedSnoc(m: AttrMap, names: seq<string>, n: string)
    requires DistinctKeys(m)
    ensures DistinctKeys(Removed(m, names))
    ensures Removed(m, names + [n]) == OrderedHash.Delete(Removed(m, names), n)
  {
    assert (names + [n])[..|names|] == names;
  }

  /** After deleting, the deleted names are gone and every other name reads
      as before; names that were not there change nothing. */
  lemma RemovedLookup(m: AttrMap, names: seq<string>, k: string)
    requires DistinctKeys(m)
    ensures Get(Removed(m, names), k) == if k in names then None else Get(m, k)
  {
    var ks := NameSet(names);
    assert k in names <==> k in ks by {
      if k in names {
        var i :| 0 <= i < |names| && names[i] == k;
      }
    }
    WithoutKeepsDistinct(m, ks);
    if k !in ks {
      GetWithout(m, ks, k);
    }
  }

  /** `attrs << input`: `nil` changes nothing, a Hash goes through `add_hash`,
      a string through `hashify_input` and then `add_hash`. */
  function Added(m: AttrMap, input: Option<Input>): (r: AttrMap)
    requires DistinctKeys(m)
    ensures DistinctKeys(r)
  {
    match input
    case None => m
    case Some(AttrHash(h)) => Merge(m, Format(h))
    case Some(AttrString(s)) => Merge(m, Format(AsValues(Hashify(s))))
  }

  /** The `formatted_new` Hash of `replace`. */
  function Replacement(input: Input): (r: Hash<Value>)
    ensures DistinctKeys(r)
  {
    match input
    case AttrString(s) =>
      CollectJoinsRepeats(Scan(s));
      AsValues(Hashify(s))
    case AttrHash(h) => Rekey(h)
  }

  /** `attrs.replace(input)`: delete every name the input mentions, then add
      the input. */
  function Replaced(m: AttrMap, input: Input): (r: AttrMap)
    requires DistinctKeys(m)
    ensures DistinctKeys(r)
  {
    var f := Replacement(input);
    Merge(Removed(m, Keys(f)), Format(f))
  }

  /** Replacing drops the mentioned names from where they were and appends
      them, holding only their new words; everything else stays in order. */
  lemma ReplaceShape(m: AttrMap, input: Input)
    requires DistinctKeys(m)
    ensures Replaced(m, input) ==
      Without(m, KeySet(Replacement(input))) + Format(Replacement(input))
  {
    var f := Replacement(input);
    var ks := KeySet(f);
    assert NameSet(Keys(f)) == ks by {
      forall k | k in ks ensures k in NameSet(Keys(f)) {
        var i :| 0 <= i < |f| && f[i].0 == k;
        assert Keys(f)[i] == k;
      }
    }
    var w := Removed(m, Keys(f));
    WithoutKeepsDistinct(m, ks);
    MergeFresh(w, Format(f));
  }

  /** After `replace` a name the input mentions reads only its new words, and
      every other name reads as before. */
  lemma ReplaceLookup(m: AttrMap, input: Input, k: string)
    requires DistinctKeys(m)
    ensures Get(Replaced(m, input), k) ==
      if HasKey(Replacement(input), k) then Get(Format(Replacement(input)), k) else Get(m, k)
  {
    var f := Replacement(input);
    var ks := KeySet(f);
    ReplaceShape(m, input);
    WithoutKeepsDistinct(m, ks);
    GetConcat(Without(m, ks), Format(f), k);
    if !HasKey(f, k) {
      GetWithout(m, ks, k);
    }
  }

  /** `replace` with a Hash: a name it holds reads the words of its last value
      there, whatever it held before; any other name reads as before. */
  lemma ReplaceHashLookup(m: AttrMap, h: Hash<Value>, k: string)
    requires DistinctKeys(m)
    ensures Get(Replaced(m, AttrHash(h)), k) ==
      match LastValue(h, k) case Some(v) => Some(Normalize(v)) case None => Get(m, k)
  {
    ReplaceLookup(m, AttrHash(h), k);
    var f := Rekey(h);
    RekeyOrder(h);
    FormatDistinct(f);
    IndexOfSameKeys(Normalized(f), f, k);
  }

  /** `replace` with a string: a name it matches reads the words of all its
      matched values, whatever it held before; any other name reads as before. */
  lemma ReplaceStringLookup(m: AttrMap, s: string, k: string)
    requires DistinctKeys(m)
    ensures Get(Replaced(m, AttrString(s)), k) ==
      match JoinedValues(Scan(s), k) case Some(t) => Some(Split(t)) case None => Get(m, k)
  {
    ReplaceLookup(m, AttrString(s), k);
    FormatParsedLookup(Hashify(s), k);
  }

  /** The `name` getter: the words joined by spaces, or `None` for a name that
      is not there (Ruby then raises `NoMethodError`). */
  function ReadValue(m: AttrMap, name: string): (r: Option<string>)
    ensures r.Some? <==> HasKey(m, name)
  {
    match Get(m, name)
    case Some(vs) => Some(Join(vs, " "))
    case None => None
  }

  /** The `name=` setter replaces that one name: it then reads back as the
      normalized value, and every other name reads as before. */
  lemma AssignReadsBack(m: AttrMap, name: string, v: Value)
    requires DistinctKeys(m)
    ensures ReadValue(Replaced(m, AttrHash([(name, v)])), name) == Some(Join(Normalize(v), " "))
    ensures forall other :: other != name ==>
      ReadValue(Replaced(m, AttrHash([(name, v)])), other) == ReadValue(m, other)
  {
    var input := AttrHash([(name, v)]);
    SingleReplacement(name, v);
    ReplaceShape(m, input);
    var w := Without(m, {name});
    assert Replaced(m, input) == w + [(name, Normalize(v))];
    WithoutKeepsDistinct(m, {name});
    PutFresh(w, name, Normalize(v));
    forall other | other != name
      ensures ReadValue(Replaced(m, input), other) == ReadValue(m, other)
    {
      GetWithout(m, {name}, other);
    }
  }

  lemma SingleReplacement(name: string, v: Value)
    ensures Replacement(AttrHash([(name, v)])) == [(name, v)]
    ensures KeySet([(name, v)]) == {name}
    ensures Format([(name, v)]) == [(name, Normalize(v))]
  {
    assert [(name, v)][..0] == [];
    assert Rekey([(name, v)]) == Put([], name, v);
    assert [(name, v)][0].0 == name;
  }

  /** Normalizing the values commutes with `[]=`. */
  lemma NormalizedPut(x: Hash<Value>, k: string, v: Value)
    ensures Normalized(Put(x, k, v)) == Put(Normalized(x), k, Normalize(v))
  {
    IndexOfSameKeys(Normalized(x), x, k);
  }

  /** Formatting is `transform_keys` followed by normalizing the values: a key
      given twice keeps its first position and its last value. */
  lemma {:induction false} FormatRekey(h: Hash<Value>)
    ensures Format(h) == Normalized(Rekey(h))
    decreases |h|
  {
    if h != [] {
      var init := h[..|h| - 1];
      var (k, v) := h[|h| - 1];
      FormatRekey(init);
      NormalizedPut(Rekey(init), k, v);
    }
  }

  /** In `formatted_new` a key holds the normalized value it was given last. */
  lemma FormatLookup(h: Hash<Value>, k: string)
    ensures Get(Format(h), k) ==
      match LastValue(h, k) case Some(v) => Some(Normalize(v)) case None => None
  {
    FormatRekey(h);
    RekeyOrder(h);
    IndexOfSameKeys(Normalized(Rekey(h)), Rekey(h), k);
  }

  /** After adding a Hash every name holds its old words followed by the last
      value the Hash gives it: a String split on whitespace, an Array as given.
      The legacy `add_attributes` computes the same merge. */
  lemma AddHashLookup(m: AttrMap, h: Hash<Value>, k: string)
    requires DistinctKeys(m)
    ensures Get(Merge(m, Format(h)), k) ==
      Combine(Get(m, k), match LastValue(h, k) case Some(v) => Some(Normalize(v)) case None => None)
    ensures Get(Added(m, Some(AttrHash(h))), k) == Get(Merge(m, Format(h)), k)
  {
    FormatLookup(h, k);
    MergeLookup(m, Format(h));
  }

  /** Formatting a parsed Hash splits each joined value string back into words. */
  lemma FormatParsedLookup(h: Hash<string>, k: string)
    requires DistinctKeys(h)
    ensures HasKey(AsValues(h), k) <==> HasKey(h, k)
    ensures Get(Format(AsValues(h)), k) ==
      match Get(h, k) case Some(t) => Some(Split(t)) case None => None
  {
    var a := AsValues(h);
    assert DistinctKeys(a);
    FormatDistinct(a);
    IndexOfSameKeys(Normalized(a), h, k);
    IndexOfSameKeys(a, h, k);
  }

  /** After adding an attribute string every name holds its old words followed
      by the words of every value matched for it, in the order matched. */
  lemma AddStringLookup(m: AttrMap, s: string, k: string)
    requires DistinctKeys(m)
    ensures Get(Added(m, Some(AttrString(s))), k) ==
      Combine(Get(m, k), var vs := ValuesOf(Scan(s), k); if vs == [] then None else Some(SplitAll(vs)))
  {
    var h := Hashify(s);
    CollectJoinsRepeats(Scan(s));
    var f := Format(AsValues(h));
    FormatParsedLookup(h, k);
    var vs := ValuesOf(Scan(s), k);
    if vs != [] {
      SplitOfJoin(vs);
    }
    assert DistinctKeys(f);
    MergeLookup(m, f);
  }

  /** `"#{k}=\"#{v.join ' '}\""`. */
  function PairText(e: (string, seq<string>)): string
  {
    Token(e.0, Join(e.1, " "))
  }

  /** The text `to_s` accumulates before stripping: every pair followed by a space. */
  function Pairs(m: AttrMap): (r: string)
    ensures r == "" <==> m == []
    ensures m != [] ==> r[|r| - 1] == ' '
    decreases |m|
  {
    if m == [] then "" else Pairs(m[..|m| - 1]) + PairText(m[|m| - 1]) + " "
  }

  /** `attrs.to_s`: empty exactly when there are no attributes, so `empty?`
      agrees with the rendering. */
  function Render(m: AttrMap): (r: string)
    ensures r == "" <==> m == []
  {
    PairsVisible(m);
    Strip(Pairs(m))
  }

  /** A rendered pair holds an `=`, which `strip` keeps. */
  lemma PairsVisible(m: AttrMap)
    ensures m != [] ==> Strip(Pairs(m)) != ""
  {
    if m != [] && Strip(Pairs(m)) == "" {
      var p := Pairs(m[..|m| - 1]);
      var e := m[|m| - 1];
      assert Pairs(m)[|p| + |e.0|] == '=' by {
        assert Pairs(m) == p + (e.0 + "=\"" + Join(e.1, " ") + "\"") + " ";
      }
      StripToEmpty(Pairs(m), |p| + |e.0|);
    }
  }

  /** The rendered pairs, in order. */
  function PairTexts(m: AttrMap): (r: seq<string>)
    ensures |r| == |m| && forall i :: 0 <= i < |m| ==> r[i] == PairText(m[i])
  {
    seq(|m|, i requires 0 <= i < |m| => PairText(m[i]))
  }

  lemma {:induction false} PairsJoin(m: AttrMap)
    requires m != []
    ensures Pairs(m) == Join(PairTexts(m), " ") + " "
    decreases |m|
  {
    var init := m[..|m| - 1];
    if |m| > 1 {
      PairsJoin(init);
      JoinSnoc(PairTexts(init), PairText(m[|m| - 1]), " ");
      assert PairTexts(init) + [PairText(m[|m| - 1])] == PairTexts(m);
    }
  }

  /** The rendering is the pairs `name="v1 v2"` joined by single spaces, as long
      as the first name does not itself start with whitespace (which `strip`
      would remove; an empty first name leaves `=` in front); an empty map
      renders as the empty string. */
  lemma RenderJoin(m: AttrMap)
    requires m != [] && m[0].0 != "" ==> !IsStrippable(m[0].0[0])
    ensures Render(m) == Join(PairTexts(m), " ")
  {
    if m != [] {
      var ts := PairTexts(m);
      var j := Join(ts, " ");
      PairsJoin(m);
      JoinEnds(ts, " ");
      assert j[0] == ts[0][0];
      if m[0].0 == "" {
        assert ts[0][0] == '=';
      } else {
        assert ts[0][0] == m[0].0[0];
      }
      var last := ts[|ts| - 1];
      assert last[|last| - 1] == '"';
      assert j[|j| - 1] == last[|last| - 1];
      StripPadded(j, " ");
    }
  }

  /** The loop of `add_hash` that builds `formatted_new`. */
  method FormatLoop(h: Hash<Value>) returns (r: AttrMap)
    ensures r == Format(h)
    ensures DistinctKeys(r) && forall k :: HasKey(r, k) <==> HasKey(h, k)
  {
    r := [];
    var i := 0;
    while i < |h|
      invariant 0 <= i <= |h|
      invariant r == Format(h[..i])
    {
      var (k, v) := h[i];
      var words := match v case Str(t) => Split(t) case Arr(xs) => xs;
      assert h[..i + 1][..i] == h[..i];
      r := Put(r, k, words);
      i := i + 1;
    }
    assert h[..|h|] == h;
  }

  /** `m.merge!(f)` with the concatenating block, one entry of `f` at a time. */
  method MergeInto(m: AttrMap, f: AttrMap) returns (r: AttrMap)
    requires DistinctKeys(m) && DistinctKeys(f)
    ensures r == Merge(m, f)
    ensures DistinctKeys(r) && forall k :: Get(r, k) == Combine(Get(m, k), Get(f, k))
  {
    r := m;
    var i := 0;
    while i < |f|
      invariant 0 <= i <= |f|
      invariant DistinctKeys(r)
      invariant r == Merge(m, f[..i])
    {
      assert f[..i + 1][..i] == f[..i];
      var (k, vs) := f[i];
      match Get(r, k) {
        case Some(prev) => r := Put(r, k, prev + vs);
        case None => r := Put(r, k, vs);
      }
      i := i + 1;
    }
    assert f[..|f|] == f;
    MergeLookup(m, f);
  }

  /** `hashify_input`: scan the string, and space-join the values of a name
      matched more than once. */
  method HashifyInput(s: string) returns (h: Hash<string>)
    ensures h == Hashify(s)
    ensures DistinctKeys(h) && forall k :: Get(h, k) == JoinedValues(Scan(s), k)
  {
    var matches := Scan(s);
    h := CollectLoop(matches);
  }

  /** The `each` of `hashify_input` over the matches: a name seen before gets
      `' ' + val` appended to its string, a new name is stored as is. */
  method CollectLoop(matches: seq<(string, string)>) returns (h: Hash<string>)
    ensures h == Collect(matches)
  {
    h := [];
    var i := 0;
    while i < |matches|
      invariant 0 <= i <= |matches|
      invariant h == Collect(matches[..i])
    {
      var key := matches[i].0;
      var val := matches[i].1;
      var joined := val;
      var found := Get(h, key);
      if found.Some? {
        joined := found.value + " " + val;
      }
      CollectStep(matches, i, h, joined);
      ghost var next := Collect(matches[..i + 1]);
      h := Put(h, key, joined);
      assert h == next;
      i := i + 1;
    }
    assert matches[..i] == matches;
  }

  /** The loop of `to_s`. */
  method RenderLoop(m: AttrMap) returns (s: string)
    ensures s == Render(m)
    ensures s == "" <==> m == []
  {
    var acc := "";
    var i := 0;
    while i < |m|
      invariant 0 <= i <= |m|
      invariant acc == Pairs(m[..i])
    {
      var (k, v) := m[i];
      assert m[..i + 1][..i] == m[..i];
      acc := acc + Token(k, Join(v, " ")) + " ";
      i := i + 1;
    }
    assert m[..|m|] == m;
    s := Strip(acc);
  }

  class HTMLAttributes {
    /** name to value words, in insertion order */
    var content: AttrMap

    ghost predicate Valid()
      reads this
    {
      DistinctKeys(content)
    }

    /** `HTMLAttributes.new(input)`: an empty map, then `<< input`. */
    constructor (input: Option<Input> := None)
      ensures Valid() && content == Added([], input)
    {
      content := [];
      new;
      Add(input);
    }

    /** `attrs[key]`: the words stored for `key`. */
    function Lookup(key: string): (r: Option<seq<string>>)
      reads this
      ensures r.Some? <==> HasKey(content, key)
      ensures r.Some? ==> ReadValue(content, key) == Some(Join(r.value, " "))
    {
      Get(content, key)
    }

    /** The getter `attrs.name`. */
    function Read(name: string): (r: Option<string>)
      reads this
      ensures r.Some? <==> HasKey(content, name)
    {
      ReadValue(content, name)
    }

    method ToS() returns (s: string)
      ensures s == Render(content)
      ensures s == "" <==> content == []
    {
      s := RenderLoop(content);
    }

    /** `attrs << input`. */
    method Add(input: Option<Input>)
      requires Valid()
      modifies this
      ensures Valid() && content == Added(old(content), input)
      ensures input.None? ==> content == old(content)
    {
      match input {
        case None =>
        case Some(AttrHash(h)) => AddHash(h);
        case Some(AttrString(s)) => AddString(s);
      }
    }

    method AddString(s: string)
      requires Valid()
      modifies this
      ensures Valid() && content == Added(old(content), Some(AttrString(s)))
    {
      var h := HashifyInput(s);
      AddHash(AsValues(h));
    }

    /** Format the Hash, then merge it in, appending to names already there. */
    method AddHash(h: Hash<Value>)
      requires Valid()
      modifies this
      ensures Valid() && content == Merge(old(content), Format(h))
    {
      var formatted := FormatLoop(h);
      content := MergeInto(content, formatted);
    }

    /** `attrs.delete(trash)`: every named attribute is removed. */
    method Delete(trash: Names)
      requires Valid()
      modifies this
      ensures Valid() && content == Without(old(content), NameSet(NamesOf(trash)))
    {
      var names := NamesOf(trash);
      var i := 0;
      while i < |names|
        invariant 0 <= i <= |names|
        invariant DistinctKeys(content)
        invariant content == Removed(old(content), names[..i])
      {
        assert names[..i + 1] == names[..i] + [names[i]];
        RemovedSnoc(old(content), names[..i], names[i]);
        content := OrderedHash.Delete(content, names[i]);
        i := i + 1;
      }
      assert names[..|names|] == names;
    }

    /** `attrs.replace(input)`. */
    method Replace(input: Input)
      requires Valid()
      modifies this
      ensures Valid() && content == Replaced(old(content), input)
    {
      var f: Hash<Value>;
      match input {
        case AttrString(s) =>
          var h := HashifyInput(s);
          f := AsValues(h);
        case AttrHash(h) =>
          f := Rekey(h);
      }
      NamesOfListed(Keys(f));
      Delete(Listed(Keys(f)));
      AddHash(f);
    }

    /** `attrs.empty?` */
    function IsEmpty(): (r: bool)
      reads this
      ensures r <==> Render(content) == ""
    {
      content == []
    }

    /** The setter `attrs.name = v`: a `replace` of that one name. */
    method Assign(name: string, v: Value)
      requires Valid()
      modifies this
      ensures Valid() && content == Replaced(old(content), AttrHash([(name, v)]))
      ensures Read(name) == Some(Join(Normalize(v), " "))
    {
      ghost var before := content;
      Replace(AttrHash([(name, v)]));
      AssignReadsBack(before, name, v);
    }
  }
}
