/** The wildcard index of domain names (pkgs/domaintree/domaintree.go): a trie over labels read from the
    right, as a value. */
module DomainTree {
  import opened Prelude

  const STAR := "*"
  const STARS := "**"

  // ---------------------------------------------------------------- names

  /** strings.Split(s, ".") */
  function Split(s: string): (labels: seq<string>)
    ensures |labels| >= 1
  {
    if s == "" then [""]
    else
      var rest := Split(s[1..]);
      if s[0] == '.' then [""] + rest else [[s[0]] + rest[0]] + rest[1..]
  }

  function Join(labels: seq<string>): string
    requires |labels| >= 1
  {
    if |labels| == 1 then labels[0] else labels[0] + "." + Join(labels[1..])
  }

  lemma {:induction false} SplitJoin(s: string)
    ensures Join(Split(s)) == s
  {
    if s != "" {
      SplitJoin(s[1..]);
      var rest := Split(s[1..]);
      if s[0] == '.' {
        assert ([""] + rest)[1..] == rest;
      } else {
        assert ([[s[0]] + rest[0]] + rest[1..])[1..] == rest[1..];
        assert [s[0]] + s[1..] == s;
      }
    }
  }

  predicate NoDot(l: string) {
    '.' !in l
  }

  predicate NoDots(labels: seq<string>) {
    forall i :: 0 <= i < |labels| ==> NoDot(labels[i])
  }

  /** No dot is left in a label. */
  lemma {:induction false} SplitLeavesNoDots(s: string)
    ensures NoDots(Split(s))
  {
    if s != "" {
      SplitLeavesNoDots(s[1..]);
      assert NoDot(Split(s[1..])[0]);
    }
  }

  /** Labels without dots that were joined are the ones that splitting gives back. */
  lemma {:induction false} JoinSplit(labels: seq<string>)
    requires |labels| >= 1 && NoDots(labels)
    ensures Split(Join(labels)) == labels
    decreases |labels|, |labels[0]|
  {
    var l, s := labels[0], Join(labels);
    assert NoDot(l);
    if l != "" {
      var shorter := [l[1..]] + labels[1..];
      assert shorter[1..] == labels[1..];
      assert forall i :: 0 < i < |labels| ==> shorter[i] == labels[i];
      assert NoDots(shorter) by {
        assert forall c :: c in l[1..] ==> c in l;
      }
      JoinSplit(shorter);
      assert s == [l[0]] + Join(shorter);
      assert s[1..] == Join(shorter) && l[0] in l;
      assert [l[0]] + shorter[0] == l;
      assert [l] + labels[1..] == labels;
    } else if |labels| > 1 {
      JoinSplit(labels[1..]);
      assert s == "." + Join(labels[1..]);
      assert s[1..] == Join(labels[1..]);
      assert [""] + labels[1..] == labels;
    } else {
      assert labels == [""];
    }
  }

  /** strings.TrimSuffix(s, ".") */
  function TrimDot(s: string): string {
    if |s| > 0 && s[|s| - 1] == '.' then s[..|s| - 1] else s
  }

  function Labels(domain: string): (labels: seq<string>)
    ensures |labels| >= 1
  {
    Split(TrimDot(domain))
  }

  lemma {:induction false} JoinEnds(labels: seq<string>)
    requires |labels| >= 1 && labels[|labels| - 1] != ""
    ensures var s, l := Join(labels), labels[|labels| - 1]; s != "" && s[|s| - 1] == l[|l| - 1]
    decreases |labels|
  {
    if |labels| > 1 {
      JoinEnds(labels[1..]);
    }
  }

  /** The two ways of writing a name, with and without a dot at the end. */
  predicate Writes(text: string, labels: seq<string>)
    requires |labels| >= 1
  {
    text == Join(labels) || text == Join(labels) + "."
  }

  /** A label that can be told from the dot at the end. */
  predicate IsName(labels: seq<string>) {
    |labels| >= 1 && NoDots(labels) && labels[|labels| - 1] != ""
  }

  /** Either way the labels are read off the text again. */
  lemma LabelsOfText(text: string, labels: seq<string>)
    requires IsName(labels) && Writes(text, labels)
    ensures Labels(text) == labels
  {
    JoinSplit(labels);
    JoinEnds(labels);
    var s, l := Join(labels), labels[|labels| - 1];
    assert NoDot(l) && l[|l| - 1] in l;
    if text == s + "." {
      assert text[..|text| - 1] == s;
    }
  }

  /** The labels from the top-level one down: the order in which the trie is walked. */
  function Rev(ks: seq<string>): (r: seq<string>)
    ensures |r| == |ks|
    ensures forall i :: 0 <= i < |ks| ==> r[i] == ks[|ks| - 1 - i]
  {
    if ks == [] then [] else [ks[|ks| - 1]] + Rev(ks[..|ks| - 1])
  }

  // ---------------------------------------------------------------- the trie as a value

  /** A child is None where the Go map holds a nil pointer. */
  datatype Trie = Trie(next: map<string, Option<Trie>>)

  const EMPTY := Trie(map[])

  /** store; None is a nil-pointer panic. */
  function Store(t: Trie, ks: seq<string>): Option<Trie>
    decreases |ks|
  {
    if ks == [] then Some(t)
    else
      var k := ks[|ks| - 1];
      if |ks| == 1 then
        if k == STARS then Some(Trie(t.next[k := None]))
        else if k in t.next then Some(t)
        else Some(Trie(t.next[k := Some(EMPTY)]))
      else
        match (if k in t.next then t.next[k] else Some(EMPTY))
        case None => None
        case Some(b) =>
          (match Store(b, ks[..|ks| - 1])
           case None => None
           case Some(b') => Some(Trie(t.next[k := Some(b')])))
  }

  /** load; None is a nil-pointer panic. */
  function Load(t: Trie, ks: seq<string>): Option<bool>
    decreases |ks|
  {
    if ks == [] then Some(false)
    else
      var k := ks[|ks| - 1];
      if |ks| == 1 then Some(k in t.next || STAR in t.next || STARS in t.next)
      else if k in t.next then
        (match t.next[k]
         case None => None
         case Some(b) => Load(b, ks[..|ks| - 1]))
      else if STAR in t.next then
        (match t.next[STAR]
         case None => None
         case Some(b) => Load(b, ks[..|ks| - 1]))
      else Some(STARS in t.next)
  }

  /** The label path p can be walked from the root; its last node may be nil. */
  predicate HasPath(t: Trie, p: seq<string>)
    decreases |p|
  {
    p == [] ||
    (p[0] in t.next && (if t.next[p[0]].None? then |p| == 1 else HasPath(t.next[p[0]].value, p[1..])))
  }

  /** The label path p ends at a nil node. */
  predicate HasNil(t: Trie, p: seq<string>)
    decreases |p|
  {
    p != [] && p[0] in t.next &&
    (if t.next[p[0]].None? then |p| == 1 else HasNil(t.next[p[0]].value, p[1..]))
  }

  /** A nil node lies strictly above the end of the path p. */
  ghost predicate NilAbove(t: Trie, p: seq<string>) {
    exists i :: 1 <= i < |p| && HasNil(t, p[..i])
  }

  lemma NilAboveCons(t: Trie, k: string, q: seq<string>)
    ensures NilAbove(t, [k] + q) <==>
      q != [] && k in t.next && (t.next[k].None? || NilAbove(t.next[k].value, q))
  {
    var p := [k] + q;
    assert forall i :: 1 <= i <= |p| ==> p[..i][0] == k && p[..i][1..] == q[..i - 1];
    if NilAbove(t, p) {
      var i :| 1 <= i < |p| && HasNil(t, p[..i]);
      assert t.next[k].Some? ==> HasNil(t.next[k].value, q[..i - 1]);
    }
    if q != [] && k in t.next {
      if t.next[k].None? {
        assert HasNil(t, p[..1]);
      } else if NilAbove(t.next[k].value, q) {
        var i :| 1 <= i < |q| && HasNil(t.next[k].value, q[..i]);
        assert HasNil(t, p[..i + 1]);
      }
    }
  }

  /** Put panics exactly when a nil node lies strictly above the end of the pattern. */
  lemma {:induction false} StorePanicsExactly(t: Trie, ks: seq<string>)
    ensures Store(t, ks) == None <==> NilAbove(t, Rev(ks))
    decreases |ks|
  {
    if |ks| >= 2 {
      var k, init := ks[|ks| - 1], ks[..|ks| - 1];
      assert Rev(ks) == [k] + Rev(init);
      NilAboveCons(t, k, Rev(init));
      var b := if k in t.next then t.next[k] else Some(EMPTY);
      if b.Some? {
        StorePanicsExactly(b.value, init);
        EmptyHasNoNil();
      }
    }
  }

  lemma EmptyHasNoNil()
    ensures forall p :: !HasNil(EMPTY, p)
  {
  }

  /** Patterns the index is made for: `**` only as the leftmost label. */
  predicate Admissible(ks: seq<string>) {
    |ks| >= 1 && forall i :: 1 <= i < |ks| ==> ks[i] != STARS
  }

  /** Nil nodes are exactly the ends of `**` labels. */
  ghost predicate Shaped(t: Trie) {
    forall p :: HasNil(t, p) <==> HasPath(t, p) && p != [] && p[|p| - 1] == STARS
  }

  predicate EndsInStars(p: seq<string>) {
    p != [] && p[|p| - 1] == STARS
  }

  /** Shaped, read off at the root and at one child. */
  lemma ShapedAt(t: Trie, k: string)
    requires Shaped(t) && k in t.next
    ensures t.next[k].None? <==> k == STARS
    ensures t.next[k].Some? ==> Shaped(t.next[k].value)
  {
    var one := [k];
    assert one[1..] == [] && HasPath(t, one);
    assert HasNil(t, one) <==> t.next[k].None?;
    assert HasNil(t, one) <==> HasPath(t, one) && EndsInStars(one);
    if t.next[k].Some? {
      var b := t.next[k].value;
      forall q
        ensures HasNil(b, q) <==> HasPath(b, q) && EndsInStars(q)
      {
        var kq := [k] + q;
        assert kq[1..] == q;
        assert HasNil(t, kq) <==> HasPath(t, kq) && EndsInStars(kq);
        assert q != [] ==> kq[|kq| - 1] == q[|q| - 1];
      }
    }
  }

  lemma EmptyShaped()
    ensures Shaped(EMPTY)
  {
  }

  lemma StoreLast(t: Trie, k: string, q: seq<string>)
    requires Shaped(t)
    ensures var t' := Store(t, [k]).value;
      && (HasPath(t', q) <==> HasPath(t, q) || IsPrefix(q, [k]))
      && (HasNil(t', q) <==> HasPath(t', q) && EndsInStars(q))
  {
    if k in t.next {
      ShapedAt(t, k);
    }
    var t' := Store(t, [k]).value;
    assert HasNil(t, q) <==> HasPath(t, q) && EndsInStars(q);
    if q != [] && q[0] == k {
      if |q| == 1 {
        assert q == [k] && IsPrefix(q, [k]);
      }
    }
  }

  lemma StoreInner(t: Trie, k: string, b': Trie, p: seq<string>, q: seq<string>)
    requires Shaped(t) && k != STARS && Shaped(b')
    requires forall q :: HasPath(b', q) <==> HasPath(if k in t.next && t.next[k].Some? then t.next[k].value else EMPTY, q) || IsPrefix(q, p)
    ensures var t' := Trie(t.next[k := Some(b')]);
      && (HasPath(t', q) <==> HasPath(t, q) || IsPrefix(q, [k] + p))
      && (HasNil(t', q) <==> HasPath(t', q) && EndsInStars(q))
  {
    if k in t.next {
      ShapedAt(t, k);
    }
    assert HasNil(t, q) <==> HasPath(t, q) && EndsInStars(q);
    if q != [] && q[0] == k {
      var q1 := q[1..];
      assert HasNil(b', q1) <==> HasPath(b', q1) && EndsInStars(q1);
      assert q1 != [] ==> q1[|q1| - 1] == q[|q| - 1];
      PrefixCons(k, p, q);
      assert k !in t.next ==> (HasPath(EMPTY, q1) ==> q1 == []);
    }
  }

  lemma PrefixCons(k: string, p: seq<string>, q: seq<string>)
    requires q != [] && q[0] == k
    ensures IsPrefix(q, [k] + p) <==> IsPrefix(q[1..], p)
  {
    if |q| <= |p| + 1 {
      assert ([k] + p)[..|q|] == [k] + p[..|q| - 1];
      assert q == [k] + q[1..];
    }
  }

  /** Storing an admissible pattern does not panic and adds the prefixes of its path, nothing else. */
  lemma {:induction false} StoreAdmissible(t: Trie, ks: seq<string>)
    requires Shaped(t) && Admissible(ks)
    ensures Store(t, ks).Some? && Shaped(Store(t, ks).value)
    ensures forall q :: HasPath(Store(t, ks).value, q) <==> HasPath(t, q) || IsPrefix(q, Rev(ks))
    decreases |ks|
  {
    var k := ks[|ks| - 1];
    if |ks| == 1 {
      assert ks == [k] == Rev(ks);
      forall q {
        StoreLast(t, k, q);
      }
    } else {
      var init := ks[..|ks| - 1];
      if k in t.next {
        ShapedAt(t, k);
      }
      EmptyShaped();
      var b := if k in t.next then t.next[k].value else EMPTY;
      StoreAdmissible(b, init);
      var b' := Store(b, init).value;
      assert Rev(ks) == [k] + Rev(init);
      forall q {
        StoreInner(t, k, b', Rev(init), q);
      }
    }
  }

  // ---------------------------------------------------------------- any sequence of Puts

  function StoreAll(t: Trie, pats: seq<seq<string>>): Option<Trie>
    decreases |pats|
  {
    if pats == [] then Some(t)
    else
      match Store(t, pats[0])
      case None => None
      case Some(t') => StoreAll(t', pats[1..])
  }

  predicate AllAdmissible(pats: seq<seq<string>>) {
    forall i :: 0 <= i < |pats| ==> Admissible(pats[i])
  }

  /** q is where some pattern leads, or on the way there. */
  ghost predicate OnTheWay(pats: seq<seq<string>>, q: seq<string>) {
    exists i :: 0 <= i < |pats| && IsPrefix(q, Rev(pats[i]))
  }

  lemma {:induction false} StoreAllPaths(t: Trie, pats: seq<seq<string>>)
    requires Shaped(t) && AllAdmissible(pats)
    ensures StoreAll(t, pats).Some? && Shaped(StoreAll(t, pats).value)
    ensures forall q :: HasPath(StoreAll(t, pats).value, q) <==> HasPath(t, q) || OnTheWay(pats, q)
    decreases |pats|
  {
    if pats != [] {
      StoreAdmissible(t, pats[0]);
      var t' := Store(t, pats[0]).value;
      var rest := pats[1..];
      assert forall i :: 0 <= i < |rest| ==> rest[i] == pats[i + 1];
      StoreAllPaths(t', rest);
      forall q
        ensures OnTheWay(pats, q) <==> IsPrefix(q, Rev(pats[0])) || OnTheWay(rest, q)
      {
        OnTheWayFirst(pats, q);
      }
    }
  }

  lemma OnTheWayFirst(pats: seq<seq<string>>, q: seq<string>)
    requires pats != []
    ensures OnTheWay(pats, q) <==> IsPrefix(q, Rev(pats[0])) || OnTheWay(pats[1..], q)
  {
    var rest := pats[1..];
    if OnTheWay(rest, q) {
      var i :| 0 <= i < |rest| && IsPrefix(q, Rev(rest[i]));
      assert IsPrefix(q, Rev(pats[i + 1]));
    }
    if i :| 0 <= i < |pats| && IsPrefix(q, Rev(pats[i])) {
      assert i > 0 ==> rest[i - 1] == pats[i];
    }
  }

  /** The index that a sequence of admissible Puts leaves behind: none of them panics. */
  function Built(pats: seq<seq<string>>): (t: Trie)
    requires AllAdmissible(pats)
    ensures StoreAll(EMPTY, pats) == Some(t)
  {
    EmptyShaped();
    StoreAllPaths(EMPTY, pats);
    StoreAll(EMPTY, pats).value
  }

  /** After any sequence of Puts the walkable paths are the prefix closure of the reversed patterns. */
  lemma PathsArePrefixClosure(pats: seq<seq<string>>)
    requires AllAdmissible(pats)
    ensures Shaped(Built(pats))
    ensures forall q :: HasPath(Built(pats), q) <==> q == [] || OnTheWay(pats, q)
  {
    EmptyShaped();
    StoreAllPaths(EMPTY, pats);
    assert forall q :: HasPath(EMPTY, q) <==> q == [];
  }

  ghost predicate SamePaths(t: Trie, u: Trie) {
    forall q :: HasPath(t, q) <==> HasPath(u, q)
  }

  /** Two shaped tries with the same paths answer every query alike. */
  lemma {:induction false} LoadSeesPathsOnly(t: Trie, u: Trie, ks: seq<string>)
    requires Shaped(t) && Shaped(u) && SamePaths(t, u)
    ensures Load(t, ks) == Load(u, ks)
    decreases |ks|
  {
    if ks != [] {
      var k := ks[|ks| - 1];
      SameChild(t, u, k);
      SameChild(t, u, STAR);
      SameChild(t, u, STARS);
      if |ks| > 1 {
        if k in t.next && t.next[k].Some? {
          LoadSeesPathsOnly(t.next[k].value, u.next[k].value, ks[..|ks| - 1]);
        } else if STAR in t.next && t.next[STAR].Some? {
          LoadSeesPathsOnly(t.next[STAR].value, u.next[STAR].value, ks[..|ks| - 1]);
        }
      }
    }
  }

  lemma SameChild(t: Trie, u: Trie, k: string)
    requires Shaped(t) && Shaped(u) && SamePaths(t, u)
    ensures k in t.next <==> k in u.next
    ensures k in t.next ==>
      && (t.next[k].Some? <==> u.next[k].Some?)
      && (t.next[k].Some? ==> && Shaped(t.next[k].value) && Shaped(u.next[k].value)
                              && SamePaths(t.next[k].value, u.next[k].value))
  {
    assert HasPath(t, [k]) <==> HasPath(u, [k]);
    assert HasPath(t, [k]) <==> k in t.next;
    assert HasPath(u, [k]) <==> k in u.next;
    if k in t.next {
      ShapedAt(t, k);
      ShapedAt(u, k);
      if t.next[k].Some? {
        forall q
          ensures HasPath(t.next[k].value, q) <==> HasPath(u.next[k].value, q)
        {
          assert ([k] + q)[1..] == q;
          assert HasPath(t, [k] + q) <==> HasPath(u, [k] + q);
        }
      }
    }
  }

  /** Neither the order nor the repetition of Puts matters to any query. */
  lemma OrderIndependent(pats: seq<seq<string>>, pats': seq<seq<string>>, ks: seq<string>)
    requires AllAdmissible(pats) && AllAdmissible(pats')
    requires forall p :: p in pats <==> p in pats'
    ensures Load(Built(pats), ks) == Load(Built(pats'), ks)
  {
    PathsArePrefixClosure(pats);
    PathsArePrefixClosure(pats');
    forall q
      ensures OnTheWay(pats, q) <==> OnTheWay(pats', q)
    {
      SameWays(pats, pats', q);
      SameWays(pats', pats, q);
    }
    LoadSeesPathsOnly(Built(pats), Built(pats'), ks);
  }

  lemma SameWays(pats: seq<seq<string>>, pats': seq<seq<string>>, q: seq<string>)
    requires forall p :: p in pats ==> p in pats'
    ensures OnTheWay(pats, q) ==> OnTheWay(pats', q)
  {
    if OnTheWay(pats, q) {
      var i :| 0 <= i < |pats| && IsPrefix(q, Rev(pats[i]));
      assert pats[i] in pats;
      var j :| 0 <= j < |pats'| && pats'[j] == pats[i];
      assert IsPrefix(q, Rev(pats'[j]));
    }
  }

  // ---------------------------------------------------------------- what a lookup means

  /** A path p of the index covers the reversed name d: label by label, a `*` standing for any label and a
      closing `**` for all that follow, for as long as d has labels. */
  predicate Covers(p: seq<string>, d: seq<string>)
    decreases |d|
  {
    d == [] ||
    (p != [] && (p == [STARS] || ((p[0] == d[0] || p[0] == STAR) && Covers(p[1..], d[1..]))))
  }

  /** A covering path can be extended. */
  lemma {:induction false} CoversExtended(q: seq<string>, p: seq<string>, d: seq<string>)
    requires Covers(q, d) && IsPrefix(q, p) && (q != [] && q[|q| - 1] == STARS ==> p == q)
    ensures Covers(p, d)
    decreases |d|
  {
    if d != [] && q != [STARS] {
      assert p[0] == q[0];
      assert p[1..][..|q| - 1] == q[1..];
      assert p != [STARS] || q == [STARS];
      CoversExtended(q[1..], p[1..], d[1..]);
    }
  }

  /** A hit is explained by a path. */
  lemma {:induction false} LoadFindsPath(t: Trie, ks: seq<string>) returns (q: seq<string>)
    requires Shaped(t) && Load(t, ks) == Some(true)
    ensures q != [] && HasPath(t, q) && Covers(q, Rev(ks))
    decreases |ks|
  {
    var k := ks[|ks| - 1];
    var d := Rev(ks);
    if |ks| == 1 {
      q := if k in t.next then [k] else if STAR in t.next then [STAR] else [STARS];
      assert HasPath(t, q);
      assert d == [k] && d[1..] == [];
    } else if k in t.next {
      ShapedAt(t, k);
      var q1 := LoadFindsPath(t.next[k].value, ks[..|ks| - 1]);
      q := [k] + q1;
      assert q[1..] == q1;
    } else if STAR in t.next {
      ShapedAt(t, STAR);
      var q1 := LoadFindsPath(t.next[STAR].value, ks[..|ks| - 1]);
      q := [STAR] + q1;
      assert q[1..] == q1;
    } else {
      q := [STARS];
      assert HasPath(t, q);
    }
  }

  /** Soundness: whatever is found is covered by a pattern that was put. */
  lemma LookupSound(pats: seq<seq<string>>, ks: seq<string>)
    requires AllAdmissible(pats)
    requires Load(Built(pats), ks) == Some(true)
    ensures exists i :: 0 <= i < |pats| && Covers(Rev(pats[i]), Rev(ks))
  {
    PathsArePrefixClosure(pats);
    var t := Built(pats);
    var q := LoadFindsPath(t, ks);
    var i :| 0 <= i < |pats| && IsPrefix(q, Rev(pats[i]));
    StarsEndPattern(pats[i], q);
    CoversExtended(q, Rev(pats[i]), Rev(ks));
  }

  /** In an admissible pattern `**` is the end of the reversed pattern. */
  lemma StarsEndPattern(ks: seq<string>, q: seq<string>)
    requires Admissible(ks) && q != [] && IsPrefix(q, Rev(ks))
    ensures q[|q| - 1] == STARS ==> q == Rev(ks)
  {
    assert q[|q| - 1] == Rev(ks)[..|q|][|q| - 1] == Rev(ks)[|q| - 1] == ks[|ks| - |q|];
    if q[|q| - 1] == STARS {
      assert |ks| - |q| == 0;
    }
  }

  /** A path of the index is found by its own labels. */
  lemma {:induction false} PathIsFound(t: Trie, ks: seq<string>)
    requires Shaped(t) && Admissible(ks) && HasPath(t, Rev(ks))
    ensures Load(t, ks) == Some(true)
    decreases |ks|
  {
    var k := ks[|ks| - 1];
    assert Rev(ks) == [k] + Rev(ks[..|ks| - 1]);
    assert Rev(ks)[1..] == Rev(ks[..|ks| - 1]);
    if |ks| > 1 {
      ShapedAt(t, k);
      PathIsFound(t.next[k].value, ks[..|ks| - 1]);
    }
  }

  /** Nothing is forgotten: every pattern that was put, and every name above it, is found after any
      further Puts; a literal domain in particular. */
  lemma NeverForgets(pats: seq<seq<string>>, i: nat, ks: seq<string>)
    requires AllAdmissible(pats) && i < |pats|
    requires Admissible(ks) && IsPrefix(Rev(ks), Rev(pats[i]))
    ensures Load(Built(pats), ks) == Some(true)
  {
    PathsArePrefixClosure(pats);
    assert OnTheWay(pats, Rev(ks));
    PathIsFound(Built(pats), ks);
  }

  predicate Literal(ks: seq<string>) {
    |ks| >= 1 && forall i :: 0 <= i < |ks| ==> ks[i] != STAR && ks[i] != STARS
  }

  /** Without wildcards among the patterns, a name is found exactly when it is a trailing run of labels of
      a domain that was put. */
  lemma LiteralLookupExact(pats: seq<seq<string>>, ks: seq<string>)
    requires AllAdmissible(pats) && forall i :: 0 <= i < |pats| ==> Literal(pats[i])
    requires ks != []
    ensures Load(Built(pats), ks) ==
      Some(exists i :: 0 <= i < |pats| && IsPrefix(Rev(ks), Rev(pats[i])))
  {
    PathsArePrefixClosure(pats);
    forall q | HasPath(Built(pats), q)
      ensures NoWildcard(q)
    {
      if q != [] {
        var i :| 0 <= i < |pats| && IsPrefix(q, Rev(pats[i]));
        LiteralPrefix(pats[i], q);
      }
    }
    LiteralWalk(Built(pats), ks);
    assert Rev(ks) != [];
  }

  lemma LiteralPrefix(ks: seq<string>, q: seq<string>)
    requires Literal(ks) && IsPrefix(q, Rev(ks))
    ensures NoWildcard(q)
  {
    assert forall j :: 0 <= j < |q| ==> q[j] == Rev(ks)[..|q|][j] == ks[|ks| - 1 - j];
  }

  predicate NoWildcard(q: seq<string>) {
    forall j :: 0 <= j < |q| ==> q[j] != STAR && q[j] != STARS
  }

  lemma NoWildcardChild(t: Trie)
    requires forall q :: HasPath(t, q) ==> NoWildcard(q)
    ensures STAR !in t.next && STARS !in t.next
  {
    assert [STAR][1..] == [] && [STARS][1..] == [];
    assert !NoWildcard([STAR]) by {
      assert [STAR][0] == STAR;
    }
    assert !NoWildcard([STARS]) by {
      assert [STARS][0] == STARS;
    }
    assert HasPath(t, [STAR]) <==> STAR in t.next;
    assert HasPath(t, [STARS]) <==> STARS in t.next;
  }

  lemma NoWildcardBelow(t: Trie, k: string)
    requires k in t.next && t.next[k].Some?
    requires forall q :: HasPath(t, q) ==> NoWildcard(q)
    ensures forall q :: HasPath(t.next[k].value, q) ==> NoWildcard(q)
  {
    forall q | HasPath(t.next[k].value, q)
      ensures NoWildcard(q)
    {
      var kq := [k] + q;
      assert kq[1..] == q && HasPath(t, kq);
      assert forall j :: 0 <= j < |q| ==> q[j] == kq[j + 1];
    }
  }

  lemma {:induction false} LiteralWalk(t: Trie, ks: seq<string>)
    requires Shaped(t) && ks != []
    requires forall q :: HasPath(t, q) ==> NoWildcard(q)
    ensures Load(t, ks) == Some(HasPath(t, Rev(ks)))
    decreases |ks|
  {
    var k := ks[|ks| - 1];
    NoWildcardChild(t);
    assert Rev(ks)[1..] == Rev(ks[..|ks| - 1]);
    if |ks| > 1 && k in t.next {
      ShapedAt(t, k);
      NoWildcardBelow(t, k);
      LiteralWalk(t.next[k].value, ks[..|ks| - 1]);
    }
  }

  // ---------------------------------------------------------------- when a lookup panics

  /** The j-th step of the path q is the one a walk takes for the label k: k where it can, else `*`. */
  predicate Follows(t: Trie, q: seq<string>, j: nat, k: string)
    requires j < |q|
  {
    q[j] == if HasPath(t, q[..j] + [k]) then k else STAR
  }

  /** q is the path the walk for the reversed name d takes. */
  ghost predicate Followed(t: Trie, d: seq<string>, q: seq<string>) {
    && |q| <= |d| && HasPath(t, q)
    && forall j :: 0 <= j < |q| ==> Follows(t, q, j, d[j])
  }

  /** The walk for d comes upon a nil node with labels left to look up. */
  ghost predicate NilFollowed(t: Trie, d: seq<string>) {
    exists q :: 0 < |q| < |d| && Followed(t, d, q) && HasNil(t, q)
  }

  /** The label the walk takes at the root. */
  function Taken(t: Trie, k: string): string {
    if k in t.next then k else STAR
  }

  lemma FollowsFirst(t: Trie, q: seq<string>, k: string)
    requires q != []
    ensures Follows(t, q, 0, k) <==> q[0] == Taken(t, k)
  {
    assert q[..0] + [k] == [k] && [k][1..] == [];
    assert HasPath(t, [k]) <==> k in t.next;
  }

  lemma FollowsNext(t: Trie, q: seq<string>, j: nat, k: string)
    requires 0 < j < |q| && q[0] in t.next && t.next[q[0]].Some?
    ensures Follows(t, q, j, k) <==> Follows(t.next[q[0]].value, q[1..], j - 1, k)
  {
    var qk := q[..j] + [k];
    assert qk[0] == q[0] && qk[1..] == q[1..][..j - 1] + [k];
    assert HasPath(t, qk) <==> HasPath(t.next[q[0]].value, qk[1..]);
  }

  lemma FollowedCons(t: Trie, k: string, d: seq<string>, q: seq<string>)
    requires Taken(t, k) in t.next && t.next[Taken(t, k)].Some? && q != []
    ensures Followed(t, [k] + d, q) <==>
      q[0] == Taken(t, k) && Followed(t.next[Taken(t, k)].value, d, q[1..])
  {
    var u, rest, kd := t.next[Taken(t, k)].value, q[1..], [k] + d;
    FollowsFirst(t, q, k);
    if Followed(t, kd, q) {
      assert Follows(t, q, 0, kd[0]);
      forall j | 0 <= j < |rest|
        ensures Follows(u, rest, j, d[j])
      {
        assert Follows(t, q, j + 1, kd[j + 1]);
        FollowsNext(t, q, j + 1, kd[j + 1]);
      }
    }
    if q[0] == Taken(t, k) && Followed(u, d, rest) {
      forall j | 0 <= j < |q|
        ensures Follows(t, q, j, kd[j])
      {
        if j > 0 {
          assert Follows(u, rest, j - 1, d[j - 1]);
          FollowsNext(t, q, j, kd[j]);
        }
      }
    }
  }

  lemma NilFollowedInto(t: Trie, k: string, d: seq<string>, q: seq<string>)
    requires 0 < |q| <= |d| && Followed(t, [k] + d, q) && HasNil(t, q)
    ensures var c := Taken(t, k);
      c in t.next && (t.next[c].None? || NilFollowed(t.next[c].value, d))
  {
    var c, kd := Taken(t, k), [k] + d;
    FollowsFirst(t, q, k);
    assert Follows(t, q, 0, kd[0]);
    if t.next[c].Some? {
      FollowedCons(t, k, d, q);
      assert HasNil(t.next[c].value, q[1..]);
    }
  }

  lemma NilFollowedOut(t: Trie, k: string, d: seq<string>)
    requires d != [] && Taken(t, k) in t.next
    requires t.next[Taken(t, k)].None? || NilFollowed(t.next[Taken(t, k)].value, d)
    ensures NilFollowed(t, [k] + d)
  {
    var c, kd := Taken(t, k), [k] + d;
    assert [c][1..] == [];
    if t.next[c].None? {
      FollowsFirst(t, [c], k);
      assert Followed(t, kd, [c]) && HasNil(t, [c]);
    } else {
      var q :| 0 < |q| < |d| && Followed(t.next[c].value, d, q) && HasNil(t.next[c].value, q);
      var cq := [c] + q;
      assert cq[1..] == q;
      FollowedCons(t, k, d, cq);
      assert HasNil(t, cq);
    }
  }

  lemma NilFollowedCons(t: Trie, k: string, d: seq<string>)
    requires d != []
    ensures NilFollowed(t, [k] + d) <==>
      Taken(t, k) in t.next && (t.next[Taken(t, k)].None? || NilFollowed(t.next[Taken(t, k)].value, d))
  {
    var c := Taken(t, k);
    if q :| 0 < |q| < |[k] + d| && Followed(t, [k] + d, q) && HasNil(t, q) {
      NilFollowedInto(t, k, d, q);
    }
    if c in t.next && (t.next[c].None? || NilFollowed(t.next[c].value, d)) {
      NilFollowedOut(t, k, d);
    }
  }

  /** Get panics exactly when its walk comes upon a nil node with labels left to look up. */
  lemma {:induction false} LoadPanicsExactly(t: Trie, ks: seq<string>)
    ensures Load(t, ks) == None <==> NilFollowed(t, Rev(ks))
    decreases |ks|
  {
    if |ks| >= 2 {
      var k, init := ks[|ks| - 1], ks[..|ks| - 1];
      assert Rev(ks) == [k] + Rev(init);
      NilFollowedCons(t, k, Rev(init));
      var c := Taken(t, k);
      if c in t.next && t.next[c].Some? {
        LoadPanicsExactly(t.next[c].value, init);
      }
    }
  }

  /** A name that is looked up may bring this about: any name that ends with the labels of a put `**`
      pattern, the `**` included, and has more labels before them, makes Get panic. */
  lemma InnerStarsPanic(pats: seq<seq<string>>, i: nat, xs: seq<string>)
    requires AllAdmissible(pats) && i < |pats| && pats[i][0] == STARS && xs != []
    ensures Load(Built(pats), xs + pats[i]) == None
  {
    var t, q := Built(pats), Rev(pats[i]);
    RevAppend(xs, pats[i]);
    PatternPath(pats, i);
    OwnPath(t, q, q + Rev(xs));
    LoadPanicsExactly(t, xs + pats[i]);
  }

  /** A pattern's own path is there, and ends at a nil node if it ends with `**`. */
  lemma PatternPath(pats: seq<seq<string>>, i: nat)
    requires AllAdmissible(pats) && i < |pats|
    ensures var q := Rev(pats[i]);
      && (forall n :: 0 <= n <= |q| ==> HasPath(Built(pats), q[..n]))
      && (pats[i][0] == STARS ==> HasNil(Built(pats), q))
  {
    var q := Rev(pats[i]);
    PathsArePrefixClosure(pats);
    forall n | 0 <= n <= |q|
      ensures HasPath(Built(pats), q[..n])
    {
      assert IsPrefix(q[..n], Rev(pats[i]));
    }
    assert q[..|q|] == q && q[|q| - 1] == pats[i][0];
  }

  lemma RevAppend(xs: seq<string>, ys: seq<string>)
    ensures Rev(xs + ys) == Rev(ys) + Rev(xs)
  {
  }

  /** A walk for labels that can all be walked follows them. */
  lemma OwnPath(t: Trie, q: seq<string>, d: seq<string>)
    requires 0 < |q| < |d| && IsPrefix(q, d) && HasNil(t, q)
    requires forall n :: 0 <= n <= |q| ==> HasPath(t, q[..n])
    ensures NilFollowed(t, d)
  {
    assert q[..|q|] == q;
    forall j | 0 <= j < |q|
      ensures Follows(t, q, j, d[j])
    {
      assert d[..|q|][j] == q[j];
      assert q[..j] + [q[j]] == q[..j + 1];
    }
    assert Followed(t, d, q);
  }

  // ---------------------------------------------------------------- the exact answer

  /** What Get decides, told by the patterns alone: from the path p that has been followed, go on with the
      next label if some pattern does, else with `*` if some pattern does, else stop at a `**`. */
  ghost predicate Chosen(pats: seq<seq<string>>, p: seq<string>, d: seq<string>)
    decreases |d|
  {
    if d == [] then false
    else
      var here, star, stars := OnTheWay(pats, p + [d[0]]), OnTheWay(pats, p + [STAR]), OnTheWay(pats, p + [STARS]);
      if |d| == 1 then here || star || stars
      else if here then Chosen(pats, p + [d[0]], d[1..])
      else if star then Chosen(pats, p + [STAR], d[1..])
      else stars
  }

  /** Get, exactly: for every name with `**` at most in front the answer is the one the set of patterns
      determines, and there is no panic. */
  lemma LookupExact(pats: seq<seq<string>>, ks: seq<string>)
    requires AllAdmissible(pats) && Admissible(ks)
    ensures Load(Built(pats), ks) == Some(Chosen(pats, [], Rev(ks)))
  {
    PathsArePrefixClosure(pats);
    forall q
      ensures HasPath(Built(pats), q) <==> q == [] || OnTheWay(pats, [] + q)
    {
      assert [] + q == q;
    }
    WalkIsChosen(Built(pats), pats, [], ks);
  }

  ghost predicate Below(t: Trie, pats: seq<seq<string>>, p: seq<string>) {
    forall q :: HasPath(t, q) <==> q == [] || OnTheWay(pats, p + q)
  }

  lemma {:induction false} WalkIsChosen(t: Trie, pats: seq<seq<string>>, p: seq<string>, ks: seq<string>)
    requires Shaped(t) && Admissible(ks) && Below(t, pats, p)
    ensures Load(t, ks) == Some(Chosen(pats, p, Rev(ks)))
    decreases |ks|
  {
    var k, init := ks[|ks| - 1], ks[..|ks| - 1];
    assert Rev(ks)[1..] == Rev(init);
    ChildBelow(t, pats, p, k);
    ChildBelow(t, pats, p, STAR);
    ChildBelow(t, pats, p, STARS);
    if |ks| > 1 {
      if k in t.next {
        WalkIsChosen(t.next[k].value, pats, p + [k], init);
      } else if STAR in t.next {
        WalkIsChosen(t.next[STAR].value, pats, p + [STAR], init);
      }
    }
  }

  lemma ChildBelow(t: Trie, pats: seq<seq<string>>, p: seq<string>, k: string)
    requires Shaped(t) && Below(t, pats, p)
    ensures k in t.next <==> OnTheWay(pats, p + [k])
    ensures k in t.next && k != STARS ==>
      t.next[k].Some? && Shaped(t.next[k].value) && Below(t.next[k].value, pats, p + [k])
  {
    assert [k][1..] == [];
    assert HasPath(t, [k]) <==> k in t.next;
    if k in t.next && k != STARS {
      ShapedAt(t, k);
      forall q
        ensures HasPath(t.next[k].value, q) <==> q == [] || OnTheWay(pats, (p + [k]) + q)
      {
        OneDown(t, pats, p, k, q);
      }
    }
  }

  lemma OneDown(t: Trie, pats: seq<seq<string>>, p: seq<string>, k: string, q: seq<string>)
    requires Below(t, pats, p) && k in t.next && t.next[k].Some?
    ensures HasPath(t.next[k].value, q) <==> OnTheWay(pats, (p + [k]) + q)
  {
    var kq := [k] + q;
    assert kq[1..] == q;
    assert p + kq == (p + [k]) + q;
    assert HasPath(t, kq) <==> OnTheWay(pats, p + kq);
  }

  // ---------------------------------------------------------------- when coverage suffices

  /** From the path p, the walk for the label l takes the step k of a pattern: no pattern goes on with l
      where this one has a wildcard, nor with `*` where it has `**`. */
  ghost predicate Straight(pats: seq<seq<string>>, p: seq<string>, k: string, l: string) {
    && (k == STAR || k == STARS ==> !OnTheWay(pats, p + [l]))
    && (k == STARS ==> !OnTheWay(pats, p + [STAR]))
  }

  /** The walk for the reversed name d is not diverted from the reversed pattern q before the last label. */
  ghost predicate Undiverted(pats: seq<seq<string>>, q: seq<string>, d: seq<string>) {
    forall j :: 0 <= j < |q| && j < |d| - 1 ==> Straight(pats, q[..j], q[j], d[j])
  }

  /** The same for what is left of them after the path p. */
  ghost predicate UndivertedFrom(pats: seq<seq<string>>, p: seq<string>, q: seq<string>, d: seq<string>) {
    forall j :: 0 <= j < |q| && j < |d| - 1 ==> Straight(pats, p + q[..j], q[j], d[j])
  }

  lemma UndivertedCons(pats: seq<seq<string>>, p: seq<string>, q: seq<string>, d: seq<string>)
    requires q != [] && |d| > 1
    ensures UndivertedFrom(pats, p, q, d) <==>
      Straight(pats, p, q[0], d[0]) && UndivertedFrom(pats, p + [q[0]], q[1..], d[1..])
  {
    var k, q1, d1 := q[0], q[1..], d[1..];
    assert p + q[..0] == p;
    forall j | 0 <= j < |q1|
      ensures p + q[..j + 1] == (p + [k]) + q1[..j]
    {
      assert q[..j + 1] == [k] + q1[..j];
    }
    if UndivertedFrom(pats, p, q, d) {
      assert Straight(pats, p + q[..0], q[0], d[0]);
      forall j | 0 <= j < |q1| && j < |d1| - 1
        ensures Straight(pats, (p + [k]) + q1[..j], q1[j], d1[j])
      {
        assert Straight(pats, p + q[..j + 1], q[j + 1], d[j + 1]);
      }
    }
    if Straight(pats, p, k, d[0]) && UndivertedFrom(pats, p + [k], q1, d1) {
      forall j | 0 <= j < |q| && j < |d| - 1
        ensures Straight(pats, p + q[..j], q[j], d[j])
      {
        if j > 0 {
          assert Straight(pats, (p + [k]) + q1[..j - 1], q1[j - 1], d1[j - 1]);
          assert p + q[..(j - 1) + 1] == (p + [k]) + q1[..j - 1];
        }
      }
    }
  }

  /** The i-th pattern goes on from p with q, covers d and is not left by the walk. */
  ghost predicate LeadsTo(pats: seq<seq<string>>, i: nat, p: seq<string>, q: seq<string>, d: seq<string>) {
    i < |pats| && p + q == Rev(pats[i]) && Covers(q, d) && UndivertedFrom(pats, p, q, d)
  }

  lemma {:induction false} CoveredIsChosen(pats: seq<seq<string>>, i: nat, p: seq<string>, q: seq<string>, d: seq<string>)
    requires NoWildcard(d) && d != [] && LeadsTo(pats, i, p, q, d)
    ensures Chosen(pats, p, d)
    decreases |d|
  {
    var k := q[0];
    NextOnTheWay(pats, i, p, q);
    if |d| > 1 {
      UndivertedCons(pats, p, q, d);
      if k != STARS {
        assert (p + [k]) + q[1..] == p + q;
        NoWildcardTail(d);
        CoveredIsChosen(pats, i, p + [k], q[1..], d[1..]);
      }
    }
    ChosenBy(pats, p, k, d);
  }

  lemma NoWildcardTail(d: seq<string>)
    requires NoWildcard(d) && d != []
    ensures NoWildcard(d[1..]) && d[0] != STAR && d[0] != STARS
  {
    assert forall j :: 0 <= j < |d| - 1 ==> d[1..][j] == d[j + 1];
  }

  lemma NextOnTheWay(pats: seq<seq<string>>, i: nat, p: seq<string>, q: seq<string>)
    requires i < |pats| && p + q == Rev(pats[i]) && q != []
    ensures OnTheWay(pats, p + [q[0]])
  {
    assert (p + q)[..|p| + 1] == p + [q[0]];
    assert IsPrefix(p + [q[0]], Rev(pats[i]));
  }

  lemma ChosenBy(pats: seq<seq<string>>, p: seq<string>, k: string, d: seq<string>)
    requires d != [] && OnTheWay(pats, p + [k]) && (k == d[0] || k == STAR || k == STARS)
    requires d[0] != STAR && d[0] != STARS
    requires |d| > 1 ==> Straight(pats, p, k, d[0]) && (k != STARS ==> Chosen(pats, p + [k], d[1..]))
    ensures Chosen(pats, p, d)
  {
  }

  /** A walk that ends in a hit has followed some pattern that covers the name. */
  lemma {:induction false} ChosenLeads(pats: seq<seq<string>>, p: seq<string>, d: seq<string>) returns (i: nat, q: seq<string>)
    requires AllAdmissible(pats) && NoWildcard(d) && Chosen(pats, p, d)
    ensures LeadsTo(pats, i, p, q, d)
    decreases |d|
  {
    NoWildcardTail(d);
    var here, star := OnTheWay(pats, p + [d[0]]), OnTheWay(pats, p + [STAR]);
    var k := if here then d[0] else if star then STAR else STARS;
    if |d| > 1 && k != STARS {
      var q1;
      i, q1 := ChosenLeads(pats, p + [k], d[1..]);
      q := [k] + q1;
      LeadsLater(pats, i, p, k, q1, d);
    } else {
      i, q := Through(pats, p, k);
      LeadsHere(pats, i, p, q, d);
    }
  }

  lemma LeadsLater(pats: seq<seq<string>>, i: nat, p: seq<string>, k: string, q: seq<string>, d: seq<string>)
    requires |d| > 1 && LeadsTo(pats, i, p + [k], q, d[1..])
    requires (k == d[0] || k == STAR) && d[0] != STARS && Straight(pats, p, k, d[0])
    ensures LeadsTo(pats, i, p, [k] + q, d)
  {
    var kq := [k] + q;
    assert p + kq == (p + [k]) + q && kq[1..] == q;
    UndivertedCons(pats, p, kq, d);
  }

  lemma LeadsHere(pats: seq<seq<string>>, i: nat, p: seq<string>, q: seq<string>, d: seq<string>)
    requires d != [] && i < |pats| && p + q == Rev(pats[i]) && q != []
    requires if |d| == 1 then q[0] == d[0] || q[0] == STAR || q == [STARS] else q == [STARS] && Straight(pats, p, STARS, d[0])
    ensures LeadsTo(pats, i, p, q, d)
  {
    if |d| > 1 {
      UndivertedCons(pats, p, q, d);
    } else {
      assert d[1..] == [];
    }
  }

  /** A pattern on whose way p + [k] lies, and what it goes on with. */
  lemma Through(pats: seq<seq<string>>, p: seq<string>, k: string) returns (i: nat, q: seq<string>)
    requires AllAdmissible(pats) && OnTheWay(pats, p + [k])
    ensures i < |pats| && p + q == Rev(pats[i]) && q != [] && q[0] == k && (k == STARS ==> q == [STARS])
  {
    i :| 0 <= i < |pats| && IsPrefix(p + [k], Rev(pats[i]));
    q := Rev(pats[i])[|p|..];
    assert Rev(pats[i])[..|p| + 1][..|p|] == p;
    assert Rev(pats[i])[..|p| + 1][|p|] == k;
    if k == STARS {
      StarsEndPattern(pats[i], p + [k]);
    }
  }

  /** What a lookup means, exactly: a name without wildcard labels is found just when some pattern covers
      it from which no other pattern diverts the walk. */
  lemma FoundExactly(pats: seq<seq<string>>, ks: seq<string>)
    requires AllAdmissible(pats) && Literal(ks)
    ensures Load(Built(pats), ks) == Some(exists i ::
      0 <= i < |pats| && Covers(Rev(pats[i]), Rev(ks)) && Undiverted(pats, Rev(pats[i]), Rev(ks)))
  {
    LookupExact(pats, ks);
    LiteralPrefix(ks, Rev(ks));
    if Chosen(pats, [], Rev(ks)) {
      var i, q := ChosenLeads(pats, [], Rev(ks));
      assert [] + q == q;
      FromTheRoot(pats, q, Rev(ks));
    }
    if i :| 0 <= i < |pats| && Covers(Rev(pats[i]), Rev(ks)) && Undiverted(pats, Rev(pats[i]), Rev(ks)) {
      assert [] + Rev(pats[i]) == Rev(pats[i]);
      FromTheRoot(pats, Rev(pats[i]), Rev(ks));
      CoveredIsChosen(pats, i, [], Rev(pats[i]), Rev(ks));
    }
  }

  lemma FromTheRoot(pats: seq<seq<string>>, q: seq<string>, d: seq<string>)
    ensures UndivertedFrom(pats, [], q, d) <==> Undiverted(pats, q, d)
  {
    assert forall j :: 0 <= j <= |q| ==> [] + q[..j] == q[..j];
  }

  /** Dotted texts as label lists. */
  function LabelsOf(domains: seq<string>): (pats: seq<seq<string>>)
    ensures |pats| == |domains| && forall i :: 0 <= i < |pats| ==> pats[i] == Labels(domains[i])
  {
    if domains == [] then [] else [Labels(domains[0])] + LabelsOf(domains[1..])
  }

  /** The whole index, from text to answer: whatever dotted patterns were put, with or without a dot at the
      end, a dotted name is found just when one of them covers it label by label and no other diverts the
      walk from it. */
  lemma TextFoundExactly(domains: seq<string>, pats: seq<seq<string>>, name: string, ks: seq<string>)
    requires |domains| == |pats| && forall i :: 0 <= i < |pats| ==> IsName(pats[i]) && Writes(domains[i], pats[i])
    requires AllAdmissible(pats)
    requires IsName(ks) && Literal(ks) && Writes(name, ks)
    ensures StoreAll(EMPTY, LabelsOf(domains)).Some?
    ensures Load(StoreAll(EMPTY, LabelsOf(domains)).value, Labels(name)) == Some(exists i ::
      0 <= i < |pats| && Covers(Rev(pats[i]), Rev(ks)) && Undiverted(pats, Rev(pats[i]), Rev(ks)))
  {
    forall i | 0 <= i < |pats|
      ensures LabelsOf(domains)[i] == pats[i]
    {
      LabelsOfText(domains[i], pats[i]);
    }
    assert LabelsOf(domains) == pats;
    LabelsOfText(name, ks);
    assert StoreAll(EMPTY, pats) == Some(Built(pats));
    FoundExactly(pats, ks);
  }

  /** The wildcards as they are written: `*.a` finds x.a and not x.y.a, `**.a` finds both. */
  lemma WildcardsInText()
    ensures var t := Store(EMPTY, Labels("*.a")).GetOr(EMPTY);
      Load(t, Labels("x.a")) == Some(true) && Load(t, Labels("x.y.a")) == Some(false)
    ensures var t := Store(EMPTY, Labels("**.a")).GetOr(EMPTY);
      Load(t, Labels("x.a")) == Some(true) && Load(t, Labels("x.y.a.")) == Some(true)
  {
    TheirLabels();
    OneStar("x", "y", "a");
    TwoStars("x", "y", "a");
  }

  lemma TheirLabels()
    ensures Labels("*.a") == ["*", "a"] && Labels("**.a") == ["**", "a"] && Labels("x.a") == ["x", "a"]
    ensures Labels("x.y.a") == ["x", "y", "a"] && Labels("x.y.a.") == ["x", "y", "a"]
  {
    TextOfTwo("*", "a");
    TextOfTwo("**", "a");
    TextOfTwo("x", "a");
    TextOfThree("x", "y", "a");
    assert "*" + "." + "a" == "*.a" && "**" + "." + "a" == "**.a" && "x" + "." + "a" == "x.a";
    assert "x" + "." + ("y" + "." + "a") == "x.y.a" && "x.y.a" + "." == "x.y.a.";
  }

  lemma OneStar(x: string, y: string, a: string)
    requires x != "*" && x != "**" && y != "*" && y != "**" && a != "**"
    ensures var t := Store(EMPTY, ["*", a]).GetOr(EMPTY); Load(t, [x, a]) == Some(true) && Load(t, [x, y, a]) == Some(false)
  {
    var b := Trie(map["*" := Some(EMPTY)]);
    assert ["*", a][..1] == ["*"] && [x, a][..1] == [x] && [x, y, a][..2] == [x, y] && [x, y][..1] == [x];
    assert Store(EMPTY, ["*"]) == Some(b);
    assert Load(EMPTY, [x]) == Some(false);
    assert Load(b, [x, y]) == Some(false);
  }

  lemma TwoStars(x: string, y: string, a: string)
    requires x != "*" && x != "**" && y != "*" && y != "**" && a != "**"
    ensures var t := Store(EMPTY, ["**", a]).GetOr(EMPTY); Load(t, [x, a]) == Some(true) && Load(t, [x, y, a]) == Some(true)
  {
    var b := Trie(map["**" := None]);
    assert ["**", a][..1] == ["**"] && [x, a][..1] == [x] && [x, y, a][..2] == [x, y];
    assert Store(EMPTY, ["**"]) == Some(b);
    assert Load(b, [x, y]) == Some(true);
  }

  lemma TextOfTwo(a: string, b: string)
    requires NoDot(a) && NoDot(b) && b != ""
    ensures Labels(a + "." + b) == [a, b]
  {
    assert [a, b][1..] == [b] && Join([b]) == b;
    LabelsOfText(a + "." + b, [a, b]);
  }

  lemma TextOfThree(a: string, b: string, c: string)
    requires NoDot(a) && NoDot(b) && NoDot(c) && c != ""
    ensures Labels(a + "." + (b + "." + c)) == Labels(a + "." + (b + "." + c) + ".") == [a, b, c]
  {
    assert [a, b, c][1..] == [b, c] && [b, c][1..] == [c] && Join([c]) == c && Join([b, c]) == b + "." + c;
    assert Join([a, b, c]) == a + "." + (b + "." + c);
    LabelsOfText(a + "." + (b + "." + c), [a, b, c]);
    LabelsOfText(a + "." + (b + "." + c) + ".", [a, b, c]);
  }

  /** No two patterns part at a wildcard: where one goes on with `*` or `**`, the others do too. */
  ghost predicate Unambiguous(pats: seq<seq<string>>) {
    forall p, k, l :: OnTheWay(pats, p + [k]) && OnTheWay(pats, p + [l]) && (k == STAR || k == STARS) ==> k == l
  }

  /** When no two patterns part at a wildcard, a name without wildcard labels is found exactly when some
      pattern covers it. */
  lemma CoverageSuffices(pats: seq<seq<string>>, ks: seq<string>)
    requires AllAdmissible(pats) && Literal(ks) && Unambiguous(pats)
    ensures Load(Built(pats), ks) == Some(exists i :: 0 <= i < |pats| && Covers(Rev(pats[i]), Rev(ks)))
  {
    FoundExactly(pats, ks);
    if i :| 0 <= i < |pats| && Covers(Rev(pats[i]), Rev(ks)) {
      LiteralPrefix(ks, Rev(ks));
      NeverDiverted(pats, i, Rev(ks));
    }
  }

  lemma NeverDiverted(pats: seq<seq<string>>, i: nat, d: seq<string>)
    requires Unambiguous(pats) && NoWildcard(d) && i < |pats|
    ensures Undiverted(pats, Rev(pats[i]), d)
  {
    var q := Rev(pats[i]);
    forall j | 0 <= j < |q| && j < |d| - 1
      ensures Straight(pats, q[..j], q[j], d[j])
    {
      assert q[..j] + q[j..] == q;
      NextOnTheWay(pats, i, q[..j], q[j..]);
      assert d[j] != STAR && d[j] != STARS;
    }
  }

  /** Coverage alone is not enough: the walk takes the literal child and does not come back for the
      wildcard beside it, so `**.c` no longer covers a.b.c once x.b.c has been put. */
  lemma NoBacktracking(a: string, x: string, b: string, c: string)
    requires Literal([a, b, c]) && Literal([x, b, c]) && a != x
    ensures var pats := [[STARS, c], [x, b, c]];
      && AllAdmissible(pats) && Covers(Rev(pats[0]), Rev([a, b, c]))
      && Load(Built(pats), [a, b, c]) == Some(false)
  {
    var pats := [[STARS, c], [x, b, c]];
    TwoPatterns(x, b, c);
    Rev2(STARS, c);
    Rev3(a, b, c);
    assert [c, STARS][1..] == [STARS];
    assert [a, b, c][0] == a && [a, b, c][1] == b && [a, b, c][2] == c && [x, b, c][0] == x;
    LookupExact(pats, [a, b, c]);
    assert [] + [c] == [c] && [c] + [b] == [c, b] && [c, b, a][1..] == [b, a] && [b, a][1..] == [a];
    assert forall k :: [c, b] + [k] == [c, b, k];
    assert !Chosen(pats, [c, b], [a]);
    assert !Chosen(pats, [c], [b, a]);
  }

  lemma TwoPatterns(x: string, b: string, c: string)
    requires Literal([x, b, c])
    ensures var pats := [[STARS, c], [x, b, c]];
      && AllAdmissible(pats) && OnTheWay(pats, [c]) && OnTheWay(pats, [c, b])
      && forall k :: k != x ==> !OnTheWay(pats, [c, b, k])
  {
    var pats := [[STARS, c], [x, b, c]];
    assert [x, b, c][1] == b && [x, b, c][2] == c;
    Rev2(STARS, c);
    Rev3(x, b, c);
    assert IsPrefix([c, b], Rev(pats[1])) && IsPrefix([c], Rev(pats[1]));
    forall k | k != x
      ensures !OnTheWay(pats, [c, b, k])
    {
      assert [c, b, k][2] == k && [c, b, x][..3][2] == x;
      assert !IsPrefix([c, b, k], Rev(pats[0])) && !IsPrefix([c, b, k], Rev(pats[1]));
    }
  }

  lemma Rev2(a: string, b: string)
    ensures Rev([a, b]) == [b, a]
  {
  }

  lemma Rev3(a: string, b: string, c: string)
    ensures Rev([a, b, c]) == [c, b, a]
  {
  }
}
