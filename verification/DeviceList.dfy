/**
 The sorted, duplicate-free list of disks that `add_device` keeps in disk/efidisk.c.
 */
module DeviceList {
  import opened Arith
  import opened DevicePath

  /** A path with a node before its end; the others are skipped before devices are listed. */
  ghost predicate Listed(p: seq<Node>) {
    IsPath(p) && |p| >= 2
  }

  ghost predicate AllListed(ps: seq<seq<Node>>) {
    forall i :: 0 <= i < |ps| ==> Listed(ps[i])
  }

  /** The last node of a path and its end. */
  function Last(p: seq<Node>): (l: seq<Node>)
    requires Listed(p)
    ensures IsPath(l)
  {
    p[|p| - 2..]
  }

  /** Devices are ordered by their last node and then by the whole path. */
  function KeyCompare(p: seq<Node>, q: seq<Node>): int
    requires Listed(p) && Listed(q)
  {
    if Compare(Last(p), Last(q)) != 0 then Compare(Last(p), Last(q)) else Compare(p, q)
  }

  lemma {:induction false} KeyOpposite(p: seq<Node>, q: seq<Node>)
    requires Listed(p) && Listed(q)
    ensures KeyCompare(p, q) == -KeyCompare(q, p)
  {
    hide Compare, Last;
    CompareOpposite(Last(p), Last(q));
    CompareOpposite(p, q);
  }

  lemma {:induction false} KeyChains(p: seq<Node>, q: seq<Node>, r: seq<Node>)
    requires Listed(p) && Listed(q) && Listed(r)
    ensures Chains(KeyCompare(p, q), KeyCompare(q, r), KeyCompare(p, r))
  {
    hide Compare, Last;
    CompareChains(Last(p), Last(q), Last(r));
    CompareChains(p, q, r);
  }

  lemma {:induction false} LastAlike(p: seq<Node>, q: seq<Node>)
    requires Listed(p) && Listed(q) && Alike(p, q)
    ensures Alike(Last(p), Last(q))
  {
    var n := |p| - 1;
    assert Last(p)[..1] == [p[..n][n - 1]] && Last(q)[..1] == [q[..n][n - 1]];
  }

  lemma {:induction false} KeyZero(p: seq<Node>, q: seq<Node>)
    requires Listed(p) && Listed(q)
    ensures KeyCompare(p, q) == 0 <==> Alike(p, q)
    ensures WellFormed(p) && WellFormed(q) ==> (Alike(p, q) <==> p == q)
  {
    hide Compare;
    CompareAlike(Last(p), Last(q));
    CompareAlike(p, q);
    if Alike(p, q) {
      LastAlike(p, q);
    }
    if WellFormed(p) && WellFormed(q) {
      CompareZero(p, q);
    }
  }

  /** The first position not before `q`. */
  function Slot(ps: seq<seq<Node>>, q: seq<Node>): (k: nat)
    requires AllListed(ps) && Listed(q)
    ensures k <= |ps|
    ensures forall i :: 0 <= i < k ==> KeyCompare(ps[i], q) < 0
    ensures k < |ps| ==> KeyCompare(ps[k], q) >= 0
  {
    if ps == [] || KeyCompare(ps[0], q) >= 0 then 0 else 1 + Slot(ps[1..], q)
  }

  function Inserted(ps: seq<seq<Node>>, q: seq<Node>): seq<seq<Node>>
    requires AllListed(ps) && Listed(q)
  {
    var k := Slot(ps, q);
    if k < |ps| && KeyCompare(ps[k], q) == 0 then ps else ps[..k] + [q] + ps[k..]
  }

  ghost predicate Ascending(ps: seq<seq<Node>>)
    requires AllListed(ps)
  {
    forall i, j :: 0 <= i < j < |ps| ==> KeyCompare(ps[i], ps[j]) < 0
  }

  /** Insertion keeps the list strictly ascending, so nothing is in it twice. */
  lemma {:induction false} InsertedAscending(ps: seq<seq<Node>>, q: seq<Node>)
    requires AllListed(ps) && Listed(q) && Ascending(ps)
    ensures AllListed(Inserted(ps, q)) && Ascending(Inserted(ps, q))
  {
    hide KeyCompare;
    var k, r := Slot(ps, q), Inserted(ps, q);
    if r != ps {
      forall i | k <= i < |ps| ensures KeyCompare(q, ps[i]) < 0 {
        KeyOpposite(ps[k], q);
        KeyChains(q, ps[k], ps[i]);
      }
      forall i, j | 0 <= i < j < |r| ensures KeyCompare(r[i], r[j]) < 0 {
        var i', j' := if i < k then i else i - 1, if j < k then j else j - 1;
        assert i != k ==> r[i] == ps[i'];
        assert j != k ==> r[j] == ps[j'];
      }
    }
  }

  ghost predicate AllWellFormed(ps: seq<seq<Node>>) {
    forall i :: 0 <= i < |ps| ==> WellFormed(ps[i])
  }

  /** Some path of the list is like `q`. */
  ghost predicate Known(ps: seq<seq<Node>>, q: seq<Node>)
    requires AllListed(ps) && Listed(q)
  {
    exists i :: 0 <= i < |ps| && Alike(ps[i], q)
  }

  /** In an ascending list a path is known exactly when the first one not before it is like it. */
  lemma {:induction false} KnownAtSlot(ps: seq<seq<Node>>, q: seq<Node>)
    requires AllListed(ps) && Listed(q) && Ascending(ps)
    ensures Known(ps, q) <==> Slot(ps, q) < |ps| && KeyCompare(ps[Slot(ps, q)], q) == 0
  {
    hide KeyCompare, Alike, Slot, Listed;
    var k := Slot(ps, q);
    if k < |ps| {
      KeyZero(ps[k], q);
    }
    if i :| 0 <= i < |ps| && Alike(ps[i], q) {
      KeyZero(ps[i], q);
      if k < i {
        KeyChains(ps[k], ps[i], q);
      }
    }
  }

  lemma LikeItself(q: seq<Node>)
    requires Listed(q)
    ensures Alike(q, q)
  {}

  lemma {:induction false} KnownItself(ps: seq<seq<Node>>, q: seq<Node>)
    requires AllListed(ps) && q in ps
    ensures Listed(q) && Known(ps, q)
  {
    var i :| 0 <= i < |ps| && ps[i] == q;
    LikeItself(q);
  }

  /**
   The old paths stay and nothing but the new one comes in: it does exactly when none like it
   is there, so that afterwards it or one like it is in the list.
   */
  lemma {:induction false} InsertedMembers(ps: seq<seq<Node>>, q: seq<Node>, r: seq<Node>)
    requires AllListed(ps) && Listed(q)
    ensures r in ps ==> r in Inserted(ps, q)
    ensures r in Inserted(ps, q) ==> r in ps || r == q
    ensures exists s :: s in Inserted(ps, q) && Listed(s) && Alike(s, q)
    ensures Ascending(ps) ==> (r in Inserted(ps, q) <==> r in ps || (r == q && !Known(ps, q)))
    ensures AllWellFormed(ps) && WellFormed(q) ==> (r in Inserted(ps, q) <==> r in ps || r == q)
  {
    hide KeyCompare, Alike, WellFormed, Known;
    var k, now := Slot(ps, q), Inserted(ps, q);
    assert ps == ps[..k] + ps[k..];
    if Ascending(ps) {
      KnownAtSlot(ps, q);
      if q in ps {
        KnownItself(ps, q);
      }
    }
    if now == ps {
      KeyZero(ps[k], q);
      assert ps[k] in now;
    } else {
      LikeItself(q);
      assert q in now;
    }
  }

  /** The list after a sequence of additions. */
  function AddAll(qs: seq<seq<Node>>): (ps: seq<seq<Node>>)
    requires AllListed(qs)
    ensures AllListed(ps) && Ascending(ps)
  {
    if qs == [] then []
    else
      var ps := AddAll(qs[..|qs| - 1]);
      InsertedAscending(ps, qs[|qs| - 1]);
      Inserted(ps, qs[|qs| - 1])
  }

  /** `r` is added at some point, and nothing like it before. */
  ghost predicate FirstOfKind(qs: seq<seq<Node>>, r: seq<Node>)
    requires AllListed(qs)
  {
    exists i :: 0 <= i < |qs| && qs[i] == r && forall j :: 0 <= j < i ==> !Alike(qs[j], qs[i])
  }

  lemma {:induction false} AlikeChains(p: seq<Node>, q: seq<Node>, r: seq<Node>)
    requires Listed(p) && Listed(q) && Listed(r) && Alike(p, q)
    ensures Alike(q, p)
    ensures Alike(q, r) <==> Alike(p, r)
  {}

  /** The kinds known after an insertion. */
  lemma {:induction false} InsertedKnown(ps: seq<seq<Node>>, q: seq<Node>, r: seq<Node>)
    requires AllListed(ps) && Listed(q) && Listed(r) && Ascending(ps)
    ensures AllListed(Inserted(ps, q))
    ensures Known(Inserted(ps, q), r) <==> Known(ps, r) || Alike(q, r)
  {
    hide KeyCompare, Alike, Inserted;
    InsertedAscending(ps, q);
    var now := Inserted(ps, q);
    if i :| 0 <= i < |now| && Alike(now[i], r) {
      InsertedMembers(ps, q, now[i]);
      if now[i] in ps {
        var j :| 0 <= j < |ps| && ps[j] == now[i];
      }
    }
    if i :| 0 <= i < |ps| && Alike(ps[i], r) {
      InsertedMembers(ps, q, ps[i]);
      var j :| 0 <= j < |now| && now[j] == ps[i];
    }
    if Alike(q, r) {
      InsertedMembers(ps, q, q);
      var s :| s in now && Listed(s) && Alike(s, q);
      AlikeChains(s, q, r);
      var j :| 0 <= j < |now| && now[j] == s;
    }
  }

  lemma {:induction false} OneMore(qs: seq<seq<Node>>, q: seq<Node>, r: seq<Node>)
    requires AllListed(qs) && Listed(q) && AllListed(qs + [q])
    ensures FirstOfKind(qs + [q], r) <==> FirstOfKind(qs, r) || (r == q && !Known(qs, q))
    ensures Listed(r) ==> (Known(qs + [q], r) <==> Known(qs, r) || Alike(q, r))
  {
    hide Alike, Listed;
    var all, n := qs + [q], |qs|;
    assert all[n] == q && forall i :: 0 <= i < n ==> all[i] == qs[i];
    if FirstOfKind(qs, r) {
      var i :| 0 <= i < |qs| && qs[i] == r && forall j :: 0 <= j < i ==> !Alike(qs[j], qs[i]);
      assert all[i] == r && forall j :: 0 <= j < i ==> !Alike(all[j], all[i]);
    }
    if r == q && !Known(qs, q) {
      assert all[n] == r && forall j :: 0 <= j < n ==> !Alike(all[j], all[n]);
    }
  }

  /**
   The list holds, of each kind, exactly the one that was added first; so of well-formed
   paths it holds exactly those that were added.
   */
  lemma {:induction false} AddAllMembers(qs: seq<seq<Node>>, r: seq<Node>)
    requires AllListed(qs)
    ensures r in AddAll(qs) <==> FirstOfKind(qs, r)
    ensures Listed(r) ==> (Known(AddAll(qs), r) <==> Known(qs, r))
    ensures AllWellFormed(qs) ==> (r in AddAll(qs) <==> r in qs)
  {
    hide Inserted, KeyCompare, Alike, Listed, WellFormed;
    if qs == [] {
    } else {
      var init, last := qs[..|qs| - 1], qs[|qs| - 1];
      assert qs == init + [last];
      AddAllMembers(init, r);
      AddAllMembers(init, last);
      OneMore(init, last, r);
      InsertedMembers(AddAll(init), last, r);
      if Listed(r) {
        InsertedKnown(AddAll(init), last, r);
      }
      if AllWellFormed(qs) {
        forall i | 0 <= i < |AddAll(init)| ensures WellFormed(AddAll(init)[i]) {
          AddAllMembers(init, AddAll(init)[i]);
        }
      }
    }
  }

  // -------------------------------------------------------- order of additions

  /** Each path added here is like one added there, and the other way round. */
  ghost predicate SameKinds(qs: seq<seq<Node>>, rs: seq<seq<Node>>)
    requires AllListed(qs) && AllListed(rs)
  {
    && (forall i :: 0 <= i < |qs| ==> Known(rs, qs[i]))
    && (forall i :: 0 <= i < |rs| ==> Known(qs, rs[i]))
  }

  ghost predicate AllAlike(ps: seq<seq<Node>>, qs: seq<seq<Node>>)
    requires AllListed(ps) && AllListed(qs)
  {
    |ps| == |qs| && forall i :: 0 <= i < |ps| ==> Alike(ps[i], qs[i])
  }

  lemma KnownNotEmpty(ps: seq<seq<Node>>, q: seq<Node>)
    requires AllListed(ps) && Listed(q) && Known(ps, q)
    ensures ps != []
  {}

  lemma {:induction false} BothEmpty(ps: seq<seq<Node>>, qs: seq<seq<Node>>)
    requires AllListed(ps) && AllListed(qs) && SameKinds(ps, qs)
    ensures ps == [] <==> qs == []
  {
    hide Alike, Listed, Known;
    if qs != [] {
      KnownNotEmpty(ps, qs[0]);
    }
    if ps != [] {
      KnownNotEmpty(qs, ps[0]);
    }
  }

  lemma NothingAlike()
    ensures AllListed([]) && AllAlike([], [])
  {}

  lemma {:induction false} Later(ps: seq<seq<Node>>)
    requires AllListed(ps) && Ascending(ps) && ps != []
    ensures AllListed(ps[1..]) && Ascending(ps[1..])
  {
    hide KeyCompare, Listed;
  }

  /** A path after the first is like one after the first. */
  lemma {:induction false} KnownLater(ps: seq<seq<Node>>, qs: seq<seq<Node>>, i: nat)
    requires AllListed(ps) && AllListed(qs) && Ascending(ps)
    requires 0 < i < |ps| && qs != [] && Alike(ps[0], qs[0]) && Known(qs, ps[i])
    ensures Known(qs[1..], ps[i])
  {
    hide KeyCompare, Alike, Listed;
    var j :| 0 <= j < |qs| && Alike(qs[j], ps[i]);
    if j == 0 {
      AlikeChains(ps[0], qs[0], ps[i]);
      KeyZero(ps[0], ps[i]);
      assert false;
    }
    assert qs[1..][j - 1] == qs[j];
  }

  lemma {:induction false} SameKindsLater(ps: seq<seq<Node>>, qs: seq<seq<Node>>)
    requires AllListed(ps) && AllListed(qs) && Ascending(ps) && Ascending(qs) && SameKinds(ps, qs)
    requires ps != [] && qs != [] && Alike(ps[0], qs[0]) && Alike(qs[0], ps[0])
    ensures AllListed(ps[1..]) && AllListed(qs[1..]) && Ascending(ps[1..]) && Ascending(qs[1..])
    ensures SameKinds(ps[1..], qs[1..])
  {
    hide KeyCompare, Alike, Listed, Known;
    Later(ps);
    Later(qs);
    forall i | 0 <= i < |ps[1..]| ensures Known(qs[1..], ps[1..][i]) {
      KnownLater(ps, qs, i + 1);
    }
    forall i | 0 <= i < |qs[1..]| ensures Known(ps[1..], qs[1..][i]) {
      KnownLater(qs, ps, i + 1);
    }
  }

  lemma {:induction false} FirstAlike(ps: seq<seq<Node>>, qs: seq<seq<Node>>)
    requires AllListed(ps) && AllListed(qs) && Ascending(ps) && Ascending(qs)
    requires ps != [] && qs != [] && Known(qs, ps[0]) && Known(ps, qs[0])
    ensures Alike(ps[0], qs[0])
  {
    hide KeyCompare, Alike, Listed;
    var i :| 0 <= i < |qs| && Alike(qs[i], ps[0]);
    var j :| 0 <= j < |ps| && Alike(ps[j], qs[0]);
    KeyZero(qs[i], ps[0]);
    KeyZero(ps[j], qs[0]);
    KeyZero(ps[0], qs[0]);
    KeyOpposite(qs[i], ps[0]);
    KeyOpposite(ps[j], qs[0]);
    KeyChains(qs[0], qs[i], ps[0]);
    KeyChains(ps[0], ps[j], qs[0]);
    KeyOpposite(ps[0], qs[0]);
    AlikeChains(qs[i], ps[0], qs[0]);
    AlikeChains(ps[j], qs[0], ps[0]);
  }

  lemma {:induction false} FirstAndLater(ps: seq<seq<Node>>, qs: seq<seq<Node>>)
    requires AllListed(ps) && AllListed(qs) && ps != [] && qs != []
    requires AllListed(ps[1..]) && AllListed(qs[1..]) && AllAlike(ps[1..], qs[1..]) && Alike(ps[0], qs[0])
    ensures AllAlike(ps, qs)
  {
    hide Alike, Listed;
    forall i | 0 <= i < |ps| ensures Alike(ps[i], qs[i]) {
      assert i > 0 ==> ps[1..][i - 1] == ps[i] && qs[1..][i - 1] == qs[i];
    }
  }

  lemma {:induction false} KindsOfFirst(ps: seq<seq<Node>>, qs: seq<seq<Node>>)
    requires AllListed(ps) && AllListed(qs) && SameKinds(ps, qs) && ps != [] && qs != []
    ensures Known(qs, ps[0]) && Known(ps, qs[0])
  {
    hide Known, Listed;
  }

  /** Ascending lists of the same kinds are alike throughout. */
  lemma {:induction false} AscendingAlike(ps: seq<seq<Node>>, qs: seq<seq<Node>>)
    requires AllListed(ps) && AllListed(qs) && Ascending(ps) && Ascending(qs) && SameKinds(ps, qs)
    ensures AllAlike(ps, qs)
  {
    hide KeyCompare, Alike, Listed, Known, Ascending, SameKinds, AllListed, AllAlike;
    BothEmpty(ps, qs);
    if ps == [] {
      NothingAlike();
    } else {
      KindsOfFirst(ps, qs);
      FirstAlike(ps, qs);
      FirstAlike(qs, ps);
      SameKindsLater(ps, qs);
      AscendingAlike(ps[1..], qs[1..]);
      FirstAndLater(ps, qs);
    }
  }

  /** Ascending lists of the same paths are the same list. */
  lemma {:induction false} AscendingUnique(ps: seq<seq<Node>>, qs: seq<seq<Node>>)
    requires AllListed(ps) && AllListed(qs) && Ascending(ps) && Ascending(qs)
    requires forall r :: r in ps <==> r in qs
    ensures ps == qs
  {
    hide KeyCompare, Alike, Listed, Known;
    forall i | 0 <= i < |ps| ensures Known(qs, ps[i]) {
      KnownItself(qs, ps[i]);
    }
    forall i | 0 <= i < |qs| ensures Known(ps, qs[i]) {
      KnownItself(ps, qs[i]);
    }
    AscendingAlike(ps, qs);
    forall i | 0 <= i < |ps| ensures ps[i] == qs[i] {
      assert ps[i] in qs;
      var j :| 0 <= j < |qs| && qs[j] == ps[i];
      KeyZero(qs[j], qs[i]);
      KeyOpposite(qs[j], qs[i]);
    }
  }

  lemma {:induction false} KnownThere(ps: seq<seq<Node>>, qs: seq<seq<Node>>, r: seq<Node>)
    requires AllListed(ps) && AllListed(qs) && AllAlike(ps, qs) && Listed(r) && Known(ps, r)
    ensures Known(qs, r)
  {
    hide Alike, Listed;
    var i :| 0 <= i < |ps| && Alike(ps[i], r);
    AlikeChains(ps[i], qs[i], r);
  }

  /** What is known of one list of additions is known of the other when the resulting lists are alike. */
  lemma {:induction false} KindsCarry(qs: seq<seq<Node>>, rs: seq<seq<Node>>)
    requires AllListed(qs) && AllListed(rs) && AllAlike(AddAll(qs), AddAll(rs))
    ensures forall i :: 0 <= i < |qs| ==> Known(rs, qs[i])
  {
    hide Alike, Listed, Known, AddAll, KeyCompare;
    forall i | 0 <= i < |qs| ensures Known(rs, qs[i]) {
      KnownItself(qs, qs[i]);
      AddAllMembers(qs, qs[i]);
      KnownThere(AddAll(qs), AddAll(rs), qs[i]);
      AddAllMembers(rs, qs[i]);
    }
  }

  /** Each path of the resulting list is known of the other one when the additions are of the same kinds. */
  lemma {:induction false} ListsKnown(qs: seq<seq<Node>>, rs: seq<seq<Node>>)
    requires AllListed(qs) && AllListed(rs) && forall i :: 0 <= i < |qs| ==> Known(rs, qs[i])
    ensures forall i :: 0 <= i < |AddAll(qs)| ==> Known(AddAll(rs), AddAll(qs)[i])
  {
    hide Alike, Listed, Known, AddAll, KeyCompare;
    forall i | 0 <= i < |AddAll(qs)| ensures Known(AddAll(rs), AddAll(qs)[i]) {
      var p := AddAll(qs)[i];
      AddAllMembers(qs, p);
      var j :| 0 <= j < |qs| && qs[j] == p;
      AddAllMembers(rs, p);
    }
  }

  lemma {:induction false} AlikeBack(ps: seq<seq<Node>>, qs: seq<seq<Node>>)
    requires AllListed(ps) && AllListed(qs) && AllAlike(ps, qs)
    ensures AllAlike(qs, ps)
  {
    hide Alike, Listed;
    forall i | 0 <= i < |qs| ensures Alike(qs[i], ps[i]) {
      AlikeChains(ps[i], qs[i], qs[i]);
    }
  }

  /**
   Up to how a broken path ends, the list depends only on which devices were added, not on
   their order or on repetitions, and it tells exactly that. The very same list results exactly
   when the same paths came first of their kind; of well-formed paths, when the same were added.
   */
  lemma {:induction false} OrderDoesNotMatter(qs: seq<seq<Node>>, rs: seq<seq<Node>>)
    requires AllListed(qs) && AllListed(rs)
    ensures AllAlike(AddAll(qs), AddAll(rs)) <==> SameKinds(qs, rs)
    ensures AddAll(qs) == AddAll(rs) <==> forall r :: FirstOfKind(qs, r) <==> FirstOfKind(rs, r)
    ensures AllWellFormed(qs) && AllWellFormed(rs) ==>
      (AddAll(qs) == AddAll(rs) <==> forall r :: r in qs <==> r in rs)
  {
    hide Alike, Listed, Known, AddAll, KeyCompare, WellFormed, FirstOfKind, Ascending;
    if AllAlike(AddAll(qs), AddAll(rs)) {
      AlikeBack(AddAll(qs), AddAll(rs));
      KindsCarry(qs, rs);
      KindsCarry(rs, qs);
    }
    if SameKinds(qs, rs) {
      ListsKnown(qs, rs);
      ListsKnown(rs, qs);
      AscendingAlike(AddAll(qs), AddAll(rs));
    }
    forall r ensures r in AddAll(qs) <==> FirstOfKind(qs, r) {
      AddAllMembers(qs, r);
    }
    forall r ensures r in AddAll(rs) <==> FirstOfKind(rs, r) {
      AddAllMembers(rs, r);
    }
    if forall r :: r in AddAll(qs) <==> r in AddAll(rs) {
      AscendingUnique(AddAll(qs), AddAll(rs));
    }
    if AllWellFormed(qs) && AllWellFormed(rs) {
      forall r ensures (r in AddAll(qs) <==> r in qs) && (r in AddAll(rs) <==> r in rs) {
        AddAllMembers(qs, r);
        AddAllMembers(rs, r);
      }
    }
  }

  // ------------------------------------------------------------- broken ends

  /** A node and a broken end whose length field is zero, of the given type. */
  function BrokenPath(kind: byte): (p: seq<Node>)
    ensures |p| == 2
  {
    [[1, 1, 4, 0], [kind, 1, 0, 0]]
  }

  lemma BrokenListed(kind: byte)
    ensures Listed(BrokenPath(kind))
  {}

  lemma {:induction false} BrokenAlike(a: byte, b: byte)
    ensures Alike(BrokenPath(a), BrokenPath(b))
  {
    assert BrokenPath(a)[..1] == [BrokenPath(a)[0]] == BrokenPath(b)[..1];
  }

  lemma {:induction false} TwoAdded(p: seq<Node>, q: seq<Node>)
    requires Listed(p) && Listed(q) && Alike(p, q)
    ensures AllListed([p, q]) && AddAll([p, q]) == [p]
  {
    hide KeyCompare, Alike, Listed;
    assert [p, q][..1] == [p] && [p][..0] == [];
    assert AddAll([]) == [];
    assert AddAll([p]) == Inserted([], p) == [p];
    KeyZero(p, q);
    assert AddAll([p, q]) == Inserted([p], q);
    assert Slot([p], q) == 0;
  }

  /** The failing input: of two devices that differ in their broken ends the one added first is kept. */
  lemma {:induction false} BrokenDropped()
    ensures BrokenPath(1) != BrokenPath(2) && AllListed([BrokenPath(1), BrokenPath(2)])
    ensures AllListed([BrokenPath(2), BrokenPath(1)])
    ensures AddAll([BrokenPath(1), BrokenPath(2)]) == [BrokenPath(1)]
    ensures AddAll([BrokenPath(2), BrokenPath(1)]) == [BrokenPath(2)]
  {
    hide KeyCompare, AddAll;
    var p, q := BrokenPath(1), BrokenPath(2);
    BrokenListed(1);
    BrokenListed(2);
    assert p[1] != q[1] by {
      assert p[1][0] != q[1][0];
    }
    BrokenAlike(1, 2);
    BrokenAlike(2, 1);
    TwoAdded(p, q);
    TwoAdded(q, p);
  }

  // ------------------------------------------------------------- linked list

  /** A listed device and the path its pointer leads to. */
  class Disk {
    const dp: nat
    ghost const path: seq<Node>
    var next: Disk?

    constructor (pointer: nat, ghost nodes: seq<Node>)
      ensures dp == pointer && path == nodes && next == null
    {
      dp, path, next := pointer, nodes, null;
    }
  }

  ghost function PathsOf(nodes: seq<Disk>): (ps: seq<seq<Node>>)
    ensures |ps| == |nodes| && forall i :: 0 <= i < |ps| ==> ps[i] == nodes[i].path
  {
    seq(|nodes|, i requires 0 <= i < |nodes| => nodes[i].path)
  }

  lemma SplicedPaths(nodes: seq<Disk>, n: Disk, i: nat)
    requires i <= |nodes|
    ensures PathsOf(nodes[..i] + [n] + nodes[i..]) == PathsOf(nodes)[..i] + [n.path] + PathsOf(nodes)[i..]
  {}

  /** Where the nodes of a spliced list come from. */
  lemma Relinked(was: seq<Disk>, n: Disk, i: nat)
    requires i <= |was| && n !in was && forall j, k :: 0 <= j < k < |was| ==> was[j] != was[k]
    ensures var now := was[..i] + [n] + was[i..];
      && (forall k :: 0 <= k < i ==> now[k] == was[k])
      && now[i] == n
      && (forall k :: i < k < |now| ==> now[k] == was[k - 1])
      && (forall j, k :: 0 <= j < k < |now| ==> now[j] != now[k])
  {}

  lemma {:induction false} SlotIs(ps: seq<seq<Node>>, q: seq<Node>, i: nat)
    requires AllListed(ps) && Listed(q) && i <= |ps|
    requires forall k :: 0 <= k < i ==> KeyCompare(ps[k], q) < 0
    requires i < |ps| ==> KeyCompare(ps[i], q) >= 0
    ensures Slot(ps, q) == i
  {
    hide KeyCompare;
  }

  /** Compares the last nodes and, when they are equal, the whole paths. */
  method KeyOrder(mem: Memory, p: Disk, d: Disk) returns (ret: int)
    requires Listed(p.path) && Stored(mem, p.dp, p.path) && Listed(d.path) && Stored(mem, d.dp, d.path)
    ensures ret == KeyCompare(p.path, d.path)
  {
    hide Compare;
    var last1 := FindLastDevicePath(mem, p.dp, p.path);
    var last2 := FindLastDevicePath(mem, d.dp, d.path);
    ret := CompareDevicePaths(mem, last1, last2, Last(p.path), Last(d.path));
    if ret == 0 {
      ret := CompareDevicePaths(mem, Some(p.dp), Some(d.dp), p.path, d.path);
    }
  }

  class DiskList {
    var devices: Disk?
    ghost var nodes: seq<Disk>

    ghost function At(i: int): Disk?
      reads this
    {
      if 0 <= i < |nodes| then nodes[i] else null
    }

    ghost predicate Valid(mem: Memory)
      reads this, nodes
    {
      && devices == At(0)
      && (forall i, j :: 0 <= i < j < |nodes| ==> nodes[i] != nodes[j])
      && (forall i {:trigger nodes[i].next} :: 0 <= i < |nodes| ==> nodes[i].next == At(i + 1))
      && (forall i :: 0 <= i < |nodes| ==> Listed(nodes[i].path) && Stored(mem, nodes[i].dp, nodes[i].path))
    }

    ghost function Paths(): (ps: seq<seq<Node>>)
      reads this
    {
      PathsOf(nodes)
    }

    constructor (mem: Memory)
      ensures Valid(mem) && Paths() == []
    {
      devices, nodes := null, [];
    }

    /** Walks to the first device not before `d`; `ret` is 0 when that device equals it. */
    method Search(mem: Memory, d: Disk) returns (prev: Disk?, p: Disk?, ret: int, ghost i: nat)
      requires Valid(mem) && Listed(d.path) && Stored(mem, d.dp, d.path)
      ensures AllListed(Paths()) && i == Slot(Paths(), d.path) && p == At(i) && prev == At(i - 1)
      ensures p == null ==> ret != 0
      ensures p != null ==> ret == KeyCompare(Paths()[i], d.path)
    {
      hide KeyCompare, Slot, Stored, Listed;
      prev, p, ret, i := null, devices, 1, 0;
      while p != null
        invariant 0 <= i <= |nodes| && p == At(i) && prev == At(i - 1)
        invariant forall k :: 0 <= k < i ==> KeyCompare(Paths()[k], d.path) < 0
        invariant p == null ==> ret != 0
        decreases |nodes| - i
      {
        ret := KeyOrder(mem, p, d);
        if ret >= 0 {
          break;
        }
        prev, p, i := p, p.next, i + 1;
      }
      SlotIs(Paths(), d.path, i);
    }

    /** Links a copy of the device between two neighbours. */
    method Splice(mem: Memory, prev: Disk?, p: Disk?, d: Disk, ghost i: nat) returns (n: Disk)
      requires Valid(mem) && Listed(d.path) && Stored(mem, d.dp, d.path)
      requires i <= |nodes| && p == At(i) && prev == At(i - 1)
      modifies this, nodes
      ensures Valid(mem) && fresh(n) && n.path == d.path && nodes == old(nodes)[..i] + [n] + old(nodes)[i..]
    {
      hide Stored, Listed;
      n := new Disk(d.dp, d.path);
      n.next := p;
      if prev == null {
        devices := n;
      } else {
        prev.next := n;
      }
      ghost var was := nodes;
      nodes := was[..i] + [n] + was[i..];
      Relinked(was, n, i);
      assert forall k {:trigger was[k].next} :: 0 <= k < |was| && k != i - 1 ==>
        was[k].next == if k + 1 < |was| then was[k + 1] else null;
    }

    /** Splices a copy of the device in before the first greater one, unless an equal one is there. */
    method AddDevice(mem: Memory, d: Disk)
      requires Valid(mem) && Listed(d.path) && Stored(mem, d.dp, d.path)
      modifies this, nodes
      ensures Valid(mem) && AllListed(old(Paths())) && Paths() == Inserted(old(Paths()), d.path)
      ensures forall n :: n in nodes ==> n in old(nodes) || fresh(n)
    {
      hide KeyCompare, Slot, Stored, Listed;
      var prev, p, ret, i := Search(mem, d);
      if ret == 0 {
        return;
      }
      var n := Splice(mem, prev, p, d, i);
      SplicedPaths(old(nodes), n, i);
    }
  }
}
