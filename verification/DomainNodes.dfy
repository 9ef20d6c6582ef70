/** The linked nodes of the domain index (pkgs/domaintree/domaintree.go), changed in place by Put, against
    the trie values of DomainTree. */
module DomainNodes {
  import opened Prelude
  import opened DomainTree

  class Node {
    var Next: map<string, Node?>
    ghost var Repr: set<object>

    constructor ()
      ensures Valid() && fresh(Repr) && View() == EMPTY
    {
      Next, Repr := map[], {this};
    }

    /** The nodes below form a tree, and Repr is all of them. */
    ghost predicate Valid()
      reads this, Repr
      decreases Repr
    {
      && this in Repr
      && (forall k | k in Next && Next[k] != null ::
            Next[k] in Repr && Next[k].Repr <= Repr && this !in Next[k].Repr && Next[k].Valid())
      && (forall j, k | j in Next && k in Next && j != k && Next[j] != null && Next[k] != null ::
            Next[j].Repr !! Next[k].Repr)
    }

    ghost function View(): Trie
      requires Valid()
      reads this, Repr
      decreases Repr
    {
      Trie(map k | k in Next :: if Next[k] == null then None else Some(Next[k].View()))
    }

    /** The outcome of a store, ok being false for the nil-pointer panic, which changes nothing. */
    twostate predicate Stored(expected: Option<Trie>, ok: bool)
      requires old(Valid()) && Valid()
      reads this, Repr
    {
      if expected.Some? then ok && View() == expected.value else !ok && View() == old(View())
    }

    /** store */
    method Store(ks: seq<string>) returns (ok: bool)
      requires Valid()
      modifies Repr
      ensures Valid() && fresh(Repr - old(Repr))
      ensures Stored(DomainTree.Store(old(View()), ks), ok)
      decreases |ks|, 1
    {
      var l := |ks|;
      if l == 0 {
        return true;
      }
      var k := ks[l - 1];
      if l == 1 {
        if k == STARS {
          SetNil(k);
          return true;
        }
        if k in Next {
          return true;
        }
        AddChild(k);
        return true;
      }
      ghost var t := View();
      if k !in Next {
        AddChild(k);
      }
      StoreThrough(t, View(), k, ks);
      ok := StoreBelow(k, ks[..l - 1]);
    }

    method AddChild(k: string)
      requires Valid() && k !in Next
      modifies this
      ensures Valid() && fresh(Repr - old(Repr)) && k in Next
      ensures View() == Trie(old(View()).next[k := Some(EMPTY)])
    {
      var n := new Node();
      Attach(k, n);
    }

    /** Whatever was below k is dropped. */
    method SetNil(k: string)
      requires Valid()
      modifies this
      ensures Valid() && Repr == old(Repr)
      ensures View() == Trie(old(View()).next[k := None])
    {
      Attach(k, null);
    }

    /** Next[k] = n, and what it makes of this node. */
    method Attach(k: string, n: Node?)
      requires Valid() && (n != null ==> n.Valid() && n.Repr !! Repr)
      modifies this
      ensures Valid() && Next == old(Next)[k := n] && Repr == old(Repr) + (if n == null then {} else old(n.Repr))
      ensures View() == Trie(old(View()).next[k := if n == null then None else Some(old(n.View()))])
    {
      Assign(k, n);
    }

    /** Next[k] = n, and what it leaves alone. */
    method Assign(k: string, n: Node?)
      requires Valid() && (n != null ==> n.Valid() && n.Repr !! Repr)
      modifies this
      ensures Next == old(Next)[k := n] && Repr == old(Repr) + (if n == null then {} else n.Repr)
      ensures Valid()
      ensures n != null ==> n.Valid() && n.View() == old(n.View()) && n.Repr == old(n.Repr)
      ensures forall j :: j in Next && j != k && Next[j] != null ==>
        Next[j].Valid() && Next[j].View() == old(Next[j].View()) && Next[j].Repr == old(Next[j].Repr)
    {
      Next := Next[k := n];
      Repr := Repr + if n == null then {} else n.Repr;
    }

    /** store in the child k. */
    method StoreBelow(k: string, ks: seq<string>) returns (ok: bool)
      requires Valid() && k in Next
      modifies Repr
      ensures Valid() && fresh(Repr - old(Repr))
      ensures Stored(StoredBelow(old(View()), k, ks), ok)
      decreases |ks|, 4
    {
      var b := Next[k];
      if b == null {
        return false;
      }
      ok := StoreInto(k, b, ks);
      assert old(View()).next[k] == Some(old(b.View()));
    }

    /** store in the child b under k, and what it makes of this node. */
    method StoreInto(k: string, b: Node, ks: seq<string>) returns (ok: bool)
      requires Valid() && k in Next && Next[k] == b
      modifies Repr
      ensures Valid() && fresh(Repr - old(Repr)) && b.Valid()
      ensures View() == Trie(old(View()).next[k := Some(b.View())])
      ensures b.Stored(DomainTree.Store(old(b.View()), ks), ok)
      decreases |ks|, 3
    {
      ghost var next := View().next;
      ok := StoreChild(k, b, ks);
      assert forall j :: j in Next && j != k && Next[j] != null ==> next[j] == Some(Next[j].View());
      Absorb(k, b);
      assert View().next == next[k := Some(b.View())];
    }

    /** The store in b, and what it leaves alone. */
    method StoreChild(k: string, b: Node, ks: seq<string>) returns (ok: bool)
      requires Valid() && k in Next && Next[k] == b
      modifies b.Repr
      ensures unchanged(this) && b.Valid() && fresh(b.Repr - old(b.Repr))
      ensures b.Stored(DomainTree.Store(old(b.View()), ks), ok)
      ensures forall j :: j in Next && j != k && Next[j] != null ==>
        && Next[j].Repr == old(Next[j].Repr) && Next[j].Repr !! b.Repr
        && Next[j].Valid() && Next[j].View() == old(Next[j].View())
      decreases |ks|, 2
    {
      ok := b.Store(ks);
    }

    /** Take the nodes that are new below k into the representation. */
    ghost method Absorb(k: string, b: Node)
      requires k in Next && Next[k] == b && this in Repr && b.Valid() && this !in b.Repr
      requires forall j :: j in Next && j != k && Next[j] != null ==>
        && Next[j] in Repr && Next[j].Repr <= Repr && this !in Next[j].Repr && Next[j].Repr !! b.Repr
        && Next[j].Valid()
      requires forall i, j :: i in Next && j in Next && i != j && i != k && j != k && Next[i] != null && Next[j] != null ==>
        Next[i].Repr !! Next[j].Repr
      modifies this`Repr
      ensures Repr == old(Repr) + b.Repr && Valid() && b.View() == old(b.View())
      ensures forall j :: j in Next && j != k && Next[j] != null ==> Next[j].View() == old(Next[j].View())
    {
      Repr := Repr + b.Repr;
      assert b.Valid();
      assert forall j :: j in Next && j != k && Next[j] != null ==> Next[j].Valid();
    }

    /** load */
    function Load(ks: seq<string>): (r: Option<bool>)
      requires Valid()
      reads this, Repr
      ensures r == DomainTree.Load(View(), ks)
      decreases |ks|
    {
      var l := |ks|;
      if l == 0 then Some(false)
      else if l == 1 then Some(ks[l - 1] in Next || STAR in Next || STARS in Next)
      else if ks[l - 1] in Next then
        var b := Next[ks[l - 1]]; if b == null then None else b.Load(ks[..l - 1])
      else if STAR in Next then
        var b := Next[STAR]; if b == null then None else b.Load(ks[..l - 1])
      else Some(STARS in Next)
    }

    method Put(domain: string) returns (ok: bool)
      requires Valid()
      modifies Repr
      ensures Valid() && fresh(Repr - old(Repr))
      ensures Stored(DomainTree.Store(old(View()), Labels(domain)), ok)
    {
      ok := Store(Labels(domain));
    }

    method Get(domain: string) returns (found: Option<bool>)
      requires Valid()
      ensures found == DomainTree.Load(View(), Labels(domain))
    {
      found := Load(Labels(domain));
    }
  }

  function StoredBelow(t: Trie, k: string, ks: seq<string>): Option<Trie>
    requires k in t.next
  {
    match t.next[k]
    case None => None
    case Some(b) =>
      (match DomainTree.Store(b, ks)
       case None => None
       case Some(b') => Some(Trie(t.next[k := Some(b')])))
  }

  /** Putting an empty child in place first makes no difference to a store. */
  lemma StoreThrough(t: Trie, t': Trie, k: string, ks: seq<string>)
    requires |ks| > 1 && k == ks[|ks| - 1]
    requires t' == if k in t.next then t else Trie(t.next[k := Some(EMPTY)])
    ensures StoredBelow(t', k, ks[..|ks| - 1]) == DomainTree.Store(t, ks)
    ensures k !in t.next ==> DomainTree.Store(t, ks).Some?
  {
    var init := ks[..|ks| - 1];
    EmptyNeverPanics(init);
    if k !in t.next {
      var b := DomainTree.Store(EMPTY, init).value;
      assert t'.next[k := Some(b)] == t.next[k := Some(b)];
    }
  }

  lemma EmptyNeverPanics(ks: seq<string>)
    ensures DomainTree.Store(EMPTY, ks).Some?
  {
    StorePanicsExactly(EMPTY, ks);
    EmptyHasNoNil();
  }

  lemma {:induction false} StoreOneMore(t: Trie, pats: seq<seq<string>>, p: seq<string>)
    requires StoreAll(t, pats).Some?
    ensures StoreAll(t, pats + [p]) == DomainTree.Store(StoreAll(t, pats).value, p)
    decreases |pats|
  {
    var all := pats + [p];
    if pats == [] {
      assert all[1..] == [];
    } else {
      assert all[1..] == pats[1..] + [p];
      StoreOneMore(DomainTree.Store(t, pats[0]).value, pats[1..], p);
    }
  }

  /** The index of a list of domains, as the blocking proxy builds it; ok is false if a Put panics. */
  method BuildIndex(domains: seq<string>) returns (nd: Node, ok: bool)
    ensures nd.Valid() && fresh(nd.Repr)
    ensures ok <==> StoreAll(EMPTY, LabelsOf(domains)).Some?
    ensures ok ==> StoreAll(EMPTY, LabelsOf(domains)) == Some(nd.View())
  {
    nd := new Node();
    ok := true;
    for i := 0 to |domains|
      invariant nd.Valid() && fresh(nd.Repr) && ok
      invariant StoreAll(EMPTY, LabelsOf(domains)[..i]) == Some(nd.View())
    {
      BuildStep(LabelsOf(domains), i);
      ok := nd.Put(domains[i]);
      if !ok {
        return;
      }
    }
    assert LabelsOf(domains)[..|domains|] == LabelsOf(domains);
  }

  lemma BuildStep(pats: seq<seq<string>>, i: nat)
    requires i < |pats| && StoreAll(EMPTY, pats[..i]).Some?
    ensures StoreAll(EMPTY, pats[..i + 1]) == DomainTree.Store(StoreAll(EMPTY, pats[..i]).value, pats[i])
    ensures StoreAll(EMPTY, pats[..i + 1]) == None ==> StoreAll(EMPTY, pats) == None
  {
    assert pats[..i + 1] == pats[..i] + [pats[i]];
    StoreOneMore(EMPTY, pats[..i], pats[i]);
    if StoreAll(EMPTY, pats[..i + 1]) == None {
      StoreStops(EMPTY, pats[..i + 1], pats[i + 1..]);
      assert pats == pats[..i + 1] + pats[i + 1..];
    }
  }

  lemma {:induction false} StoreStops(t: Trie, a: seq<seq<string>>, b: seq<seq<string>>)
    ensures StoreAll(t, a) == None ==> StoreAll(t, a + b) == None
    decreases |a|
  {
    if a != [] {
      assert (a + b)[1..] == a[1..] + b;
      if DomainTree.Store(t, a[0]).Some? {
        StoreStops(DomainTree.Store(t, a[0]).value, a[1..], b);
      }
    }
  }
}
