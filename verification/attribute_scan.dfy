/**
 * Parsing an attribute string such as `class="a b" id="c"` (`hashify_input`):
 * `String#scan` with the pattern ` ?([^="]+)="([^"]+)"`, then a Hash that
 * space-joins the values of a name seen twice.
 *
 * Both character classes exclude the delimiter that follows them, so a greedy
 * run never has to give characters back; the one backtracking step the pattern
 * can take is dropping the optional leading space, which matters only when the
 * run after that space is empty (the name is then the space itself).
 */
module AttributeScan {
  import opened Wrappers
  import opened RubyStrings
  import opened OrderedHash

  /** One match: the two captures and the number of characters consumed. */
  datatype Match = Match(name: string, value: string, length: nat)

  /** Characters of `[^="]`. */
  predicate IsNameChar(c: char) { c != '=' && c != '"' }

  /** Characters of `[^"]`. */
  predicate IsValueChar(c: char) { c != '"' }

  /** A capture of `([^="]+)`. */
  predicate IsNameCapture(n: string) {
    |n| > 0 && forall i :: 0 <= i < |n| ==> IsNameChar(n[i])
  }

  /** A capture of `([^"]+)`. */
  predicate IsValueCapture(v: string) {
    |v| > 0 && forall i :: 0 <= i < |v| ==> IsValueChar(v[i])
  }

  /** The text `name="value"`. */
  function Token(name: string, value: string): string {
    name + "=\"" + value + "\""
  }

  /** End of the longest run of name characters of `s` starting at `j`. */
  function NameEnd(s: string, j: nat): (e: nat)
    requires j <= |s|
    ensures j <= e <= |s|
    ensures forall i :: j <= i < e ==> IsNameChar(s[i])
    ensures e < |s| ==> !IsNameChar(s[e])
    decreases |s| - j
  {
    if j == |s| || !IsNameChar(s[j]) then j else NameEnd(s, j + 1)
  }

  /** End of the longest run of value characters of `s` starting at `j`. */
  function ValueEnd(s: string, j: nat): (e: nat)
    requires j <= |s|
    ensures j <= e <= |s|
    ensures forall i :: j <= i < e ==> IsValueChar(s[i])
    ensures e < |s| ==> !IsValueChar(s[e])
    decreases |s| - j
  {
    if j == |s| || !IsValueChar(s[j]) then j else ValueEnd(s, j + 1)
  }

  /** The pattern anchored at the start of `s`. A match consumes an optional
      space and then exactly `name="value"`. */
  function MatchAt(s: string): (r: Option<Match>)
    ensures r.Some? ==> IsNameCapture(r.value.name) && IsValueCapture(r.value.value)
    ensures r.Some? ==> 0 < r.value.length <= |s|
    ensures r.Some? ==>
      s[..r.value.length] == Token(r.value.name, r.value.value) ||
      s[..r.value.length] == " " + Token(r.value.name, r.value.value)
  {
    var j := if |s| > 0 && s[0] == ' ' then 1 else 0;
    var e := NameEnd(s, j);
    // an empty run after the optional space: the space itself is the name
    var b := if e == j then 0 else j;
    if e == b || e + 1 >= |s| || s[e] != '=' || s[e + 1] != '"' then None
    else
      var f := ValueEnd(s, e + 2);
      if f == e + 2 || f == |s| then None
      else
        var m := Match(s[b..e], s[e + 2..f], f + 1);
        TokenAt(s, b, e, f);
        assert b == 0 || s[..b] == " ";
        Some(m)
  }

  /** The text from `b` through a closing quote at `f` is the lead `s[..b]`
      and the token of the name `s[b..e]` and value `s[e + 2..f]`. */
  lemma TokenAt(s: string, b: nat, e: nat, f: nat)
    requires b <= e && e + 2 <= f < |s| && s[e] == '=' && s[e + 1] == '"' && s[f] == '"'
    ensures s[..f + 1] == s[..b] + Token(s[b..e], s[e + 2..f])
  {
    assert s[..f + 1] == s[..b] + s[b..e] + s[e..e + 2] + s[e + 2..f] + s[f..f + 1];
    assert s[e..e + 2] == "=\"";
    assert s[f..f + 1] == "\"";
  }

  /** `s.scan(pattern)`: every leftmost match, each search resuming where the
      previous match ended. */
  function Scan(s: string): (r: seq<(string, string)>)
    ensures forall i :: 0 <= i < |r| ==> IsNameCapture(r[i].0) && IsValueCapture(r[i].1)
    decreases |s|
  {
    if s == [] then []
    else match MatchAt(s)
      case Some(m) => [(m.name, m.value)] + Scan(s[m.length..])
      case None => Scan(s[1..])
  }

  /** The body of the `each` in `hashify_input`: a name seen before gets
      `' ' + value` appended to its string, a new name is stored as is. */
  function Gather(h: Hash<string>, name: string, value: string): (r: Hash<string>)
    requires DistinctKeys(h)
    ensures DistinctKeys(r)
    ensures Get(r, name) == Some(if HasKey(h, name) then Get(h, name).value + " " + value else value)
    ensures forall k :: k != name ==> Get(r, k) == Get(h, k)
    ensures |r| <= |h| + 1
  {
    PutLookup(h, name, match Get(h, name) case Some(prev) => prev + " " + value case None => value);
    match Get(h, name)
    case Some(prev) => Put(h, name, prev + " " + value)
    case None => Put(h, name, value)
  }

  /** One step keeps the order of the names: a name seen before stays where it
      was, a new name goes last. */
  lemma GatherOrder(h: Hash<string>, name: string, value: string)
    requires DistinctKeys(h)
    ensures Keys(Gather(h, name, value)) == Keys(h) + (if HasKey(h, name) then [] else [name])
  {
    match Get(h, name)
    case Some(prev) => PutOrder(h, name, prev + " " + value);
    case None => PutOrder(h, name, value);
  }

  /** The Hash `hashify_input` builds from a list of matches. */
  function Collect(ps: seq<(string, string)>): (r: Hash<string>)
    ensures DistinctKeys(r)
    ensures |r| <= |ps|
    decreases |ps|
  {
    if ps == [] then []
    else Gather(Collect(ps[..|ps| - 1]), ps[|ps| - 1].0, ps[|ps| - 1].1)
  }

  /** One more match is one more step of the fold. */
  lemma CollectSnoc(ps: seq<(string, string)>, i: nat)
    requires i < |ps|
    ensures Collect(ps[..i + 1]) == Gather(Collect(ps[..i]), ps[i].0, ps[i].1)
  {
    assert ps[..i + 1][..i] == ps[..i];
  }

  /** The Hash keeps the names in the order they were first matched. */
  lemma {:induction false} CollectOrder(ps: seq<(string, string)>)
    ensures Keys(Collect(ps)) == FirstKeys(ps)
    decreases |ps|
  {
    if ps != [] {
      var init := ps[..|ps| - 1];
      CollectOrder(init);
      KeysHas(Collect(init), ps[|ps| - 1].0);
      GatherOrder(Collect(init), ps[|ps| - 1].0, ps[|ps| - 1].1);
    }
  }

  /** The step of the fold written out as the assignment `hashify_input` makes. */
  lemma CollectStep(ps: seq<(string, string)>, i: nat, h: Hash<string>, joined: string)
    requires i < |ps| && h == Collect(ps[..i])
    requires joined == if Get(h, ps[i].0).Some? then Get(h, ps[i].0).value + " " + ps[i].1 else ps[i].1
    ensures Collect(ps[..i + 1]) == Put(h, ps[i].0, joined)
  {
    CollectSnoc(ps, i);
  }

  /** `hashify_input(s)`. It never fails: text that does not match is skipped. */
  function Hashify(s: string): (r: Hash<string>)
    ensures DistinctKeys(r)
    ensures forall k :: Get(r, k) == JoinedValues(Scan(s), k)
  {
    CollectJoinsRepeats(Scan(s));
    Collect(Scan(s))
  }

  /** `hashify_input` keeps the names in the order they were first matched,
      which decides where `<<` of a string appends the names it adds. */
  lemma HashifyOrder(s: string)
    ensures Keys(Hashify(s)) == FirstKeys(Scan(s))
  {
    CollectOrder(Scan(s));
  }

  /** The values matched for `name`, in order. */
  function ValuesOf(ps: seq<(string, string)>, name: string): seq<string>
    decreases |ps|
  {
    if ps == [] then []
    else ValuesOf(ps[..|ps| - 1], name) + (if ps[|ps| - 1].0 == name then [ps[|ps| - 1].1] else [])
  }

  /** All values matched for `name`, space-joined, or `None` if there are none. */
  function JoinedValues(ps: seq<(string, string)>, name: string): Option<string>
  {
    var vs := ValuesOf(ps, name);
    if vs == [] then None else Some(Join(vs, " "))
  }

  /** A name matched several times in one string ends up once, holding all its
      values joined by single spaces in the order they were matched. */
  lemma {:induction false} CollectJoinsRepeats(ps: seq<(string, string)>)
    ensures DistinctKeys(Collect(ps))
    ensures forall k :: Get(Collect(ps), k) == JoinedValues(ps, k)
    decreases |ps|
  {
    if ps != [] {
      var init := ps[..|ps| - 1];
      var (n, v) := ps[|ps| - 1];
      CollectJoinsRepeats(init);
      var h := Collect(init);
      var nv := match Get(h, n) case Some(prev) => prev + " " + v case None => v;
      PutLookup(h, n, nv);
      assert Collect(ps) == Put(h, n, nv);
      forall k ensures Get(Collect(ps), k) == JoinedValues(ps, k)
      {
        assert ps[..|ps| - 1] == init;
        assert ValuesOf(ps, k) == ValuesOf(init, k) + (if k == n then [v] else []);
        assert Get(h, k) == JoinedValues(init, k);
        if k == n {
          assert Get(Put(h, n, nv), n) == Some(nv);
          if ValuesOf(init, n) == [] {
            assert nv == v && ValuesOf(ps, n) == [v];
            assert JoinedValues(ps, n) == Some(nv);
          } else {
            JoinSnoc(ValuesOf(init, n), v, " ");
            assert nv == Join(ValuesOf(init, n), " ") + " " + v;
            assert JoinedValues(ps, n) == Some(nv);
          }
        } else {
          assert Get(Put(h, n, nv), k) == Get(h, k);
          assert ValuesOf(init, k) + [] == ValuesOf(init, k);
          assert JoinedValues(ps, k) == JoinedValues(init, k);
        }
      }
    }
  }

  /** Spaced(ps) is the text ` n1="v1" n2="v2" ...`. */
  function Spaced(ps: seq<(string, string)>): string
  {
    if ps == [] then "" else " " + Token(ps[0].0, ps[0].1) + Spaced(ps[1..])
  }

  /** A pair that renders and re-parses unchanged: a name of name characters
      that does not start with a space, and a value of value characters. */
  predicate Rescannable(p: (string, string)) {
    IsNameCapture(p.0) && p.0[0] != ' ' && IsValueCapture(p.1)
  }

  /** The pattern matches `name="value"` at the start of a string, with or
      without one leading space, whatever follows. */
  lemma MatchToken(name: string, value: string, lead: string, rest: string)
    requires Rescannable((name, value))
    requires lead == "" || lead == " "
    ensures MatchAt(lead + Token(name, value) + rest) ==
      Some(Match(name, value, |lead| + |Token(name, value)|))
  {
    MatchTokenIn(lead + Token(name, value) + rest, name, value, lead);
  }

  /** MatchToken for a string already known to be `lead + name="value" + ...`. */
  lemma MatchTokenIn(s: string, name: string, value: string, lead: string)
    requires Rescannable((name, value))
    requires lead == "" || lead == " "
    requires |lead| + |Token(name, value)| <= |s|
    requires s[..|lead| + |Token(name, value)|] == lead + Token(name, value)
    ensures MatchAt(s) == Some(Match(name, value, |lead| + |Token(name, value)|))
  {
    var j := |lead|;
    var e := j + |name|;
    var f := e + 2 + |value|;
    var n := |lead| + |Token(name, value)|;
    assert MatchAt(s) == Some(Match(name, value, n)) by {
      TokenLayout(s, name, value, lead);
      NameEndIs(s, j, e);
      ValueEndIs(s, e + 2, f);
      MatchAtIs(s, j, e, f, name, value, n);
    }
  }

  /** The pattern matches with name `s[j..e]` and value `s[e + 2..f]` once the
      runs it scans are known to end at `e` and `f`. */
  lemma MatchAtIs(s: string, j: nat, e: nat, f: nat, name: string, value: string, n: nat)
    requires j == (if |s| > 0 && s[0] == ' ' then 1 else 0)
    requires j < e <= |s| && NameEnd(s, j) == e && e + 1 < |s| && s[e] == '=' && s[e + 1] == '"'
    requires e + 2 < f < |s| && ValueEnd(s, e + 2) == f
    requires s[j..e] == name && s[e + 2..f] == value && n == f + 1
    ensures MatchAt(s) == Some(Match(name, value, n))
  {
  }

  /** Where the pieces of a string starting with `lead + name="value"` sit. */
  lemma TokenLayout(s: string, name: string, value: string, lead: string)
    requires Rescannable((name, value))
    requires lead == "" || lead == " "
    requires |lead| + |Token(name, value)| <= |s|
    requires s[..|lead| + |Token(name, value)|] == lead + Token(name, value)
    ensures var j := |lead|;
      var e := j + |name|;
      var f := e + 2 + |value|;
      && f < |s| && (if |s| > 0 && s[0] == ' ' then 1 else 0) == j
      && s[j..e] == name && s[e] == '=' && s[e + 1] == '"'
      && s[e + 2..f] == value && s[f] == '"'
  {
    var n := |lead| + |Token(name, value)|;
    var p := s[..n];
    var j := |lead|;
    var e := j + |name|;
    var tail := "=\"" + value + "\"";
    assert p == lead + name + tail;
    assert s[0] == p[0] == (if lead == "" then name[0] else ' ');
    assert s[j..e] == p[j..e] == name;
    assert s[e..n] == p[e..] == tail;
    assert tail[2..2 + |value|] == value && tail[2 + |value|] == '"';
  }

  lemma NameEndIs(s: string, j: nat, e: nat)
    requires j <= e < |s| && s[e] == '='
    requires IsNameCapture(s[j..e]) || e == j
    ensures NameEnd(s, j) == e
  {
  }

  lemma ValueEndIs(s: string, j: nat, e: nat)
    requires j <= e < |s| && s[e] == '"'
    requires IsValueCapture(s[j..e]) || e == j
    ensures ValueEnd(s, j) == e
  {
  }

  /** A rendered token at the start, with or without one leading space, is
      the first pair found; scanning resumes right after it. */
  lemma ScanLead(lead: string, p: (string, string), rest: string)
    requires Rescannable(p)
    requires lead == "" || lead == " "
    ensures Scan(lead + Token(p.0, p.1) + rest) == [p] + Scan(rest)
  {
    var t := Token(p.0, p.1);
    var s := lead + t + rest;
    MatchToken(p.0, p.1, lead, rest);
    assert s[|lead| + |t|..] == rest;
  }

  /** Scanning ` n1="v1" n2="v2" ...` finds exactly those pairs. */
  lemma {:induction false} ScanSpaced(ps: seq<(string, string)>)
    requires forall i :: 0 <= i < |ps| ==> Rescannable(ps[i])
    ensures Scan(Spaced(ps)) == ps
    decreases |ps|
  {
    if ps != [] {
      var rest := Spaced(ps[1..]);
      assert Spaced(ps) == " " + Token(ps[0].0, ps[0].1) + rest;
      ScanLead(" ", ps[0], rest);
      forall i | 0 <= i < |ps| - 1
        ensures Rescannable(ps[1..][i])
      {
        assert ps[1..][i] == ps[i + 1];
      }
      ScanSpaced(ps[1..]);
      assert [ps[0]] + ps[1..] == ps;
    }
  }

  /** Scanning `n1="v1" n2="v2" ...` (no leading space) finds exactly those pairs. */
  lemma ScanTokens(ps: seq<(string, string)>)
    requires ps != []
    requires forall i :: 0 <= i < |ps| ==> Rescannable(ps[i])
    ensures Scan(Token(ps[0].0, ps[0].1) + Spaced(ps[1..])) == ps
  {
    ScanFirst(ps[0], Spaced(ps[1..]));
    ScanSpaced(ps[1..]);
    assert [ps[0]] + ps[1..] == ps;
  }

  lemma ScanFirst(p: (string, string), rest: string)
    requires Rescannable(p)
    ensures Scan(Token(p.0, p.1) + rest) == [p] + Scan(rest)
  {
    var t := Token(p.0, p.1);
    assert "" + t == t;
    ScanLead("", p, rest);
  }

  /** Collecting pairs whose names are already distinct changes nothing. */
  lemma {:induction false} CollectDistinct(ps: seq<(string, string)>)
    requires DistinctKeys(ps)
    ensures Collect(ps) == ps
    decreases |ps|
  {
    if ps != [] {
      var init := ps[..|ps| - 1];
      var (k, v) := ps[|ps| - 1];
      assert DistinctKeys(init);
      CollectDistinct(init);
      assert !HasKey(init, k);
      PutFresh(init, k, v);
      assert Collect(ps) == Gather(init, k, v) == Put(init, k, v);
      assert init + [(k, v)] == ps;
    }
  }

  /** An empty value does not match the pattern, so `alt=""` adds nothing. */
  lemma EmptyValueSkipped()
    ensures Hashify("alt=\"\"") == []
  {
    var s := "alt=\"\"";
    assert NameEnd(s, 0) == 3;
    assert ValueEnd(s, 5) == 5;
    assert MatchAt(s) == None;
    assert MatchAt(s[1..]) == None by { assert NameEnd(s[1..], 0) == 2; assert ValueEnd(s[1..], 4) == 4; }
    assert MatchAt(s[2..]) == None by { assert NameEnd(s[2..], 0) == 1; assert ValueEnd(s[2..], 3) == 3; }
    assert MatchAt(s[3..]) == None by { assert NameEnd(s[3..], 0) == 0; }
    assert MatchAt(s[4..]) == None by { assert NameEnd(s[4..], 0) == 0; }
    assert MatchAt(s[5..]) == None by { assert NameEnd(s[5..], 0) == 0; }
    assert s[1..][1..] == s[2..] && s[2..][1..] == s[3..] && s[3..][1..] == s[4..];
    assert s[4..][1..] == s[5..] && s[5..][1..] == [];
  }
}
