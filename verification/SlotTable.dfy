/** The slot table of the order map as a value: probing, backward-shift deletion, and what both
    mean for the finite map the table stands for. */
module SlotTables {
  import opened Basics
  import opened SlotArithmetic

  type Key = U64
  type Hash = Key -> nat

  datatype Slot<+V> = Empty | Full(key: Key, value: V)
  type Table<V> = seq<Slot<V>>

  /** Which displaced entries the deletion pulls back into the hole: the code's comparison is
      strict, the header's description of the algorithm needs the non-strict one. */
  datatype ShiftRule = Strict | AtLeast

  ghost predicate Hashes(home: Hash, cap: nat) {
    forall k: Key :: home(k) < cap
  }

  ghost predicate UniqueKeys<V>(t: Table<V>) {
    forall i, j :: 0 <= i < |t| && 0 <= j < |t| && i != j ==> KeysDiffer(t, i, j)
  }

  ghost predicate KeysDiffer<V>(t: Table<V>, i: nat, j: nat)
    requires i < |t| && j < |t|
  {
    t[i].Full? && t[j].Full? ==> t[i].key != t[j].key
  }

  lemma KeyAt<V>(t: Table<V>, i: nat, j: nat)
    requires UniqueKeys(t) && i < |t| && j < |t| && t[i].Full? && t[j].Full? && t[i].key == t[j].key
    ensures i == j
  {
    assert i != j ==> KeysDiffer(t, i, j);
  }

  /** Every slot from the home of entry c to its position is occupied. */
  ghost predicate Reached<V>(t: Table<V>, home: Hash, c: nat)
    requires Hashes(home, |t|) && c < |t| && t[c].Full?
  {
    forall x :: 0 <= x < |t| && OnPath(|t|, home(t[c].key), x, c) ==> t[x].Full?
  }

  ghost predicate AllReached<V>(t: Table<V>, home: Hash)
    requires Hashes(home, |t|)
  {
    forall c {:trigger Reached(t, home, c)} :: 0 <= c < |t| && t[c].Full? ==> Reached(t, home, c)
  }

  ghost predicate Sound<V>(t: Table<V>, home: Hash) {
    && Hashes(home, |t|)
    && UniqueKeys(t)
    && AllReached(t, home)
  }

  ghost predicate HasEmpty<V>(t: Table<V>) {
    exists e :: 0 <= e < |t| && t[e].Empty?
  }

  ghost predicate HasKey<V>(t: Table<V>, key: Key) {
    exists c :: 0 <= c < |t| && t[c].Full? && t[c].key == key
  }

  /** The finite map that the occupied slots hold. */
  ghost function Contents<V>(t: Table<V>): map<Key, V> {
    ContentsUpTo(t, |t|)
  }

  lemma ContentsHolds<V>(t: Table<V>)
    requires UniqueKeys(t)
    ensures forall k: Key :: k in Contents(t) <==> HasKey(t, k)
    ensures forall c :: 0 <= c < |t| && t[c].Full? ==> t[c].key in Contents(t) && Contents(t)[t[c].key] == t[c].value
  {
    ContentsUpToHolds(t, |t|);
  }

  /** The bindings held by the first n slots. */
  ghost function ContentsUpTo<V>(t: Table<V>, n: nat): map<Key, V>
    requires n <= |t|
  {
    if n == 0 then map[]
    else if t[n-1].Empty? then ContentsUpTo(t, n - 1)
    else ContentsUpTo(t, n - 1)[t[n-1].key := t[n-1].value]
  }

  lemma {:induction false} ContentsUpToHolds<V>(t: Table<V>, n: nat)
    requires UniqueKeys(t) && n <= |t|
    ensures forall k: Key :: k in ContentsUpTo(t, n) <==> exists c :: 0 <= c < n && t[c].Full? && t[c].key == k
    ensures forall c :: 0 <= c < n && t[c].Full?
              ==> t[c].key in ContentsUpTo(t, n) && ContentsUpTo(t, n)[t[c].key] == t[c].value
  {
    if n > 0 {
      ContentsUpToHolds(t, n - 1);
      forall c | 0 <= c < n - 1 && t[c].Full? && t[n-1].Full?
        ensures t[c].key != t[n-1].key
      {
        assert KeysDiffer(t, c, n - 1);
      }
    }
  }

  /** The map a table holds, recognised slot by slot. */
  lemma ContentsIs<V>(t: Table<V>, m: map<Key, V>)
    requires UniqueKeys(t)
    requires forall k: Key :: k in m ==> HasKey(t, k)
    requires forall c :: 0 <= c < |t| && t[c].Full? ==> t[c].key in m && m[t[c].key] == t[c].value
    ensures Contents(t) == m
  {
    ContentsHolds(t);
    forall k: Key | HasKey(t, k)
      ensures k in m && Contents(t)[k] == m[k]
    {
      var c :| 0 <= c < |t| && t[c].Full? && t[c].key == k;
    }
  }

  ghost function Occupied<V>(t: Table<V>, n: nat): nat
    requires n <= |t|
  {
    if n == 0 then 0 else Occupied(t, n - 1) + if t[n-1].Full? then 1 else 0
  }

  lemma {:induction false} OccupiedAll<V>(t: Table<V>, n: nat)
    requires n <= |t|
    ensures Occupied(t, n) <= n
    ensures Occupied(t, n) == n <==> forall c :: 0 <= c < n ==> t[c].Full?
  {
    if n > 0 {
      OccupiedAll(t, n - 1);
    }
  }

  lemma SizeOfUpdate<V>(m: map<Key, V>, k: Key, v: V)
    requires k !in m
    ensures |m[k := v]| == |m| + 1
  {
  }

  lemma {:induction false} OccupiedIsSize<V>(t: Table<V>, n: nat)
    requires UniqueKeys(t) && n <= |t|
    ensures |ContentsUpTo(t, n)| == Occupied(t, n)
  {
    if n > 0 {
      OccupiedIsSize(t, n - 1);
      if t[n-1].Full? {
        KeyIsNew(t, n);
        SizeOfUpdate(ContentsUpTo(t, n - 1), t[n-1].key, t[n-1].value);
      }
    }
  }

  lemma KeyIsNew<V>(t: Table<V>, n: nat)
    requires UniqueKeys(t) && 0 < n <= |t| && t[n-1].Full?
    ensures t[n-1].key !in ContentsUpTo(t, n - 1)
  {
    ContentsUpToHolds(t, n - 1);
    if t[n-1].key in ContentsUpTo(t, n - 1) {
      var c :| 0 <= c < n - 1 && t[c].Full? && t[c].key == t[n-1].key;
      KeyAt(t, c, n - 1);
    }
  }

  /** A slot is free exactly when fewer keys are stored than there are slots. */
  lemma HasEmptyIffSpare<V>(t: Table<V>)
    requires UniqueKeys(t)
    ensures HasEmpty(t) <==> |Contents(t)| < |t|
  {
    OccupiedAll(t, |t|);
    OccupiedIsSize(t, |t|);
  }

  lemma EmptyTable<V>(t: Table<V>, home: Hash)
    requires Hashes(home, |t|) && forall i :: 0 <= i < |t| ==> t[i].Empty?
    ensures Sound(t, home) && Contents(t) == map[]
  {
    ContentsIs(t, map[]);
  }

  // ---------- probing

  /** The probe loop: from slot i, at most n slots, to the key or to an empty slot. */
  function Walk<V>(t: Table<V>, key: Key, i: nat, n: nat): Option<nat>
    requires i < |t|
    decreases n
  {
    if n == 0 || t[i].Empty? then None
    else if t[i].key == key then Some(i)
    else Walk(t, key, Next(|t|, i), n - 1)
  }

  ghost function Probe<V>(t: Table<V>, home: Hash, key: Key): Option<nat>
    requires Hashes(home, |t|)
  {
    Walk(t, key, home(key), |t|)
  }

  /** The slots before distance d from h hold other keys. */
  ghost predicate Passed<V>(t: Table<V>, key: Key, h: nat, d: nat)
    requires h < |t|
  {
    forall x :: 0 <= x < |t| && Dist(|t|, h, x) < d ==> t[x].Full? && t[x].key != key
  }

  /** What a walk that has passed the first |t| - n slots finds. */
  lemma {:induction false} WalkOutcome<V>(t: Table<V>, key: Key, h: nat, i: nat, n: nat)
    requires h < |t| && i < |t| && n <= |t| && Passed(t, key, h, |t| - n)
    requires n > 0 ==> Dist(|t|, h, i) == |t| - n
    ensures match Walk(t, key, i, n)
            case Some(c) => c < |t| && t[c].Full? && t[c].key == key && Passed(t, key, h, Dist(|t|, h, c))
            case None => Passed(t, key, h, |t|)
                         || exists e :: 0 <= e < |t| && t[e].Empty? && Passed(t, key, h, Dist(|t|, h, e))
    decreases n
  {
    if n == 0 || t[i].Empty? || t[i].key == key {
    } else {
      forall x | 0 <= x < |t| && Dist(|t|, h, x) < |t| - n + 1
        ensures t[x].Full? && t[x].key != key
      {
        if Dist(|t|, h, x) == |t| - n {
          assert x == i;
        }
      }
      WalkOutcome(t, key, h, Next(|t|, i), n - 1);
    }
  }

  /** An entry is found by its key exactly when no slot on its probe path is empty. */
  lemma ProbeFindsExactlyTheReached<V>(t: Table<V>, home: Hash, c: nat)
    requires Hashes(home, |t|) && UniqueKeys(t) && c < |t| && t[c].Full?
    ensures Probe(t, home, t[c].key) == Some(c) <==> Reached(t, home, c)
  {
    var key := t[c].key;
    var h := home(key);
    WalkOutcome(t, key, h, h, |t|);
    match Probe(t, home, key)
    case Some(d) =>
      KeyAt(t, c, d);
    case None =>
      if Passed(t, key, h, |t|) {
        assert false;
      }
      var e :| 0 <= e < |t| && t[e].Empty? && Passed(t, key, h, Dist(|t|, h, e));
      assert !(Dist(|t|, h, c) < Dist(|t|, h, e));
      assert OnPath(|t|, h, e, c);
  }

  /** In a sound table the probe decides membership. */
  lemma ProbeDecides<V>(t: Table<V>, home: Hash, key: Key)
    requires Sound(t, home)
    ensures match Probe(t, home, key)
            case Some(c) => c < |t| && t[c].Full? && t[c].key == key
            case None => !HasKey(t, key)
  {
    var h := home(key);
    WalkOutcome(t, key, h, h, |t|);
    if HasKey(t, key) {
      var c :| 0 <= c < |t| && t[c].Full? && t[c].key == key;
      ProbeFindsExactlyTheReached(t, home, c);
    }
  }

  /** A table is sound exactly when every key it stores is found, with its own value. */
  lemma SoundIffAllFound<V>(t: Table<V>, home: Hash)
    requires Hashes(home, |t|) && UniqueKeys(t)
    ensures Sound(t, home)
       <==> forall c :: 0 <= c < |t| && t[c].Full? ==> Probe(t, home, t[c].key) == Some(c)
  {
    forall c | 0 <= c < |t| && t[c].Full?
      ensures Probe(t, home, t[c].key) == Some(c) <==> Reached(t, home, c)
    {
      ProbeFindsExactlyTheReached(t, home, c);
    }
  }

  // ---------- insertion

  /** Writing a key into the slot its probe stopped at keeps the table sound, adds exactly that
      binding, and touches no other slot. */
  lemma InsertKeepsSound<V>(t: Table<V>, home: Hash, key: Key, value: V, c: nat)
    requires Sound(t, home) && c < |t|
    requires if t[c].Full? then t[c].key == key else Passed(t, key, home(key), Dist(|t|, home(key), c)) && !HasKey(t, key)
    ensures var u := t[c := Full(key, value)]; Sound(u, home) && Contents(u) == Contents(t)[key := value]
  {
    var u := t[c := Full(key, value)];
    forall d | 0 <= d < |u| && u[d].Full?
      ensures Reached(u, home, d)
    {
      if d != c {
        assert Reached(t, home, d);
      } else if t[c].Full? {
        assert Reached(t, home, c);
      }
    }
    ContentsHolds(t);
    var m := Contents(t)[key := value];
    assert u[c].key == key;
    forall k: Key | k in m
      ensures HasKey(u, k)
    {
      if k != key {
        var i :| 0 <= i < |t| && t[i].Full? && t[i].key == k;
        assert u[i].key == k;
      }
    }
    forall i | 0 <= i < |t| && i != c && t[i].Full?
      ensures t[i].key != key
    {
      if t[c].Full? {
        assert KeysDiffer(t, i, c);
      }
    }
    forall i, j | 0 <= i < |u| && 0 <= j < |u| && i != j
      ensures KeysDiffer(u, i, j)
    {
      assert KeysDiffer(t, i, j);
    }
    ContentsIs(u, m);
  }

  // ---------- deletion

  /** How far the entries have been pushed past their homes, summed over the table's first n slots. */
  ghost function Displacement<V>(t: Table<V>, home: Hash, n: nat): nat
    requires Hashes(home, |t|) && n <= |t|
  {
    if n == 0 then 0
    else Displacement(t, home, n - 1) + if t[n-1].Full? then Dist(|t|, home(t[n-1].key), n - 1) else 0
  }

  lemma {:induction false} DisplacementUpdate<V>(t: Table<V>, home: Hash, n: nat, i: nat, s: Slot<V>)
    requires Hashes(home, |t|) && n <= |t| && i < |t|
    ensures Displacement(t[i := s], home, n) + (if i < n && t[i].Full? then Dist(|t|, home(t[i].key), i) else 0)
         == Displacement(t, home, n) + (if i < n && s.Full? then Dist(|t|, home(s.key), i) else 0)
  {
    if n > 0 {
      DisplacementUpdate(t, home, n - 1, i, s);
    }
  }

  predicate Pulls<V>(t: Table<V>, home: Hash, rule: ShiftRule, hole: nat, cur: nat)
    requires hole < |t| && cur < |t| && t[cur].Full? && home(t[cur].key) < |t|
  {
    var displaced := Dist(|t|, home(t[cur].key), cur);
    var gap := Dist(|t|, hole, cur);
    if rule == Strict then displaced > gap else displaced >= gap
  }

  function Moved<V>(t: Table<V>, hole: nat, cur: nat): Table<V>
    requires hole < |t| && cur < |t|
  {
    t[hole := t[cur]][cur := Empty]
  }

  lemma MoveShrinksDisplacement<V>(t: Table<V>, home: Hash, rule: ShiftRule, hole: nat, cur: nat)
    requires Hashes(home, |t|) && hole < |t| && cur < |t| && t[hole].Empty? && t[cur].Full?
    requires Pulls(t, home, rule, hole, cur)
    ensures Displacement(Moved(t, hole, cur), home, |t|) < Displacement(t, home, |t|)
  {
    DisplacementUpdate(t, home, |t|, hole, t[cur]);
    DisplacementUpdate(t[hole := t[cur]], home, |t|, cur, Empty);
  }

  /** The backward shift: scan on from the hole, pulling displaced entries into it, until an
      empty slot. Terminates on every table, a full one included. */
  ghost function Shift<V>(t: Table<V>, home: Hash, rule: ShiftRule, hole: nat, cur: nat): (u: Table<V>)
    requires Hashes(home, |t|) && hole < |t| && cur < |t| && t[hole].Empty?
    ensures |u| == |t|
    decreases Displacement(t, home, |t|), Dist(|t|, cur, hole)
  {
    if t[cur].Empty? then t
    else if Pulls(t, home, rule, hole, cur) then
      MoveShrinksDisplacement(t, home, rule, hole, cur);
      Shift(Moved(t, hole, cur), home, rule, cur, Next(|t|, cur))
    else Shift(t, home, rule, hole, Next(|t|, cur))
  }

  ghost function Erased<V>(t: Table<V>, home: Hash, rule: ShiftRule, p: nat): (u: Table<V>)
    requires Hashes(home, |t|) && p < |t|
    ensures |u| == |t|
  {
    Shift(t[p := Empty], home, rule, p, Next(|t|, p))
  }

  lemma MoveKeepsContents<V>(t: Table<V>, hole: nat, cur: nat)
    requires UniqueKeys(t) && hole < |t| && cur < |t| && t[hole].Empty? && t[cur].Full?
    ensures UniqueKeys(Moved(t, hole, cur)) && Contents(Moved(t, hole, cur)) == Contents(t)
  {
    var u := Moved(t, hole, cur);
    forall k: Key | HasKey(t, k)
      ensures HasKey(u, k)
    {
      var i :| 0 <= i < |t| && t[i].Full? && t[i].key == k;
      assert u[if i == cur then hole else i].key == k;
    }
    assert forall i :: 0 <= i < |u| && u[i].Full? ==> u[i] == t[if i == hole then cur else i];
    forall i, j | 0 <= i < |u| && 0 <= j < |u| && i != j
      ensures KeysDiffer(u, i, j)
    {
      if i != cur && j != cur {
        assert KeysDiffer(t, if i == hole then cur else i, if j == hole then cur else j);
      }
    }
    ContentsHolds(t);
    ContentsIs(u, Contents(t));
  }

  /** Neither rule loses, duplicates or changes an entry, on any table. */
  lemma {:induction false} ShiftKeepsContents<V>(t: Table<V>, home: Hash, rule: ShiftRule, hole: nat, cur: nat)
    requires Hashes(home, |t|) && UniqueKeys(t) && hole < |t| && cur < |t| && t[hole].Empty?
    ensures var u := Shift(t, home, rule, hole, cur); UniqueKeys(u) && Contents(u) == Contents(t)
    decreases Displacement(t, home, |t|), Dist(|t|, cur, hole)
  {
    if t[cur].Empty? {
    } else if Pulls(t, home, rule, hole, cur) {
      MoveShrinksDisplacement(t, home, rule, hole, cur);
      MoveKeepsContents(t, hole, cur);
      ShiftKeepsContents(Moved(t, hole, cur), home, rule, cur, Next(|t|, cur));
    } else {
      ShiftKeepsContents(t, home, rule, hole, Next(|t|, cur));
    }
  }

  lemma VacateRemoves<V>(t: Table<V>, p: nat)
    requires UniqueKeys(t) && p < |t| && t[p].Full?
    ensures var v := t[p := Empty]; UniqueKeys(v) && Contents(v) == Contents(t) - {t[p].key}
  {
    var v := t[p := Empty];
    forall k: Key | k != t[p].key && HasKey(t, k)
      ensures HasKey(v, k)
    {
      var i :| 0 <= i < |t| && t[i].Full? && t[i].key == k;
      assert v[i].key == k;
    }
    assert forall i :: 0 <= i < |v| && v[i].Full? ==> i != p && v[i] == t[i];
    forall i, j | 0 <= i < |v| && 0 <= j < |v| && i != j
      ensures KeysDiffer(v, i, j)
    {
      assert KeysDiffer(t, i, j);
    }
    forall i | 0 <= i < |t| && i != p && t[i].Full?
      ensures t[i].key != t[p].key
    {
      assert KeysDiffer(t, i, p);
    }
    ContentsHolds(t);
    ContentsIs(v, Contents(t) - {t[p].key});
  }

  /** Erasing under either rule removes exactly the one binding. */
  lemma ErasedRemoves<V>(t: Table<V>, home: Hash, rule: ShiftRule, p: nat)
    requires Hashes(home, |t|) && UniqueKeys(t) && p < |t| && t[p].Full?
    ensures var u := Erased(t, home, rule, p); UniqueKeys(u) && Contents(u) == Contents(t) - {t[p].key}
  {
    VacateRemoves(t, p);
    ShiftKeepsContents(t[p := Empty], home, rule, p, Next(|t|, p));
  }

  // ---------- the non-strict rule restores the probe paths

  /** The hole is the only gap on any probe path. */
  ghost predicate ReachedBut<V>(t: Table<V>, home: Hash, hole: nat)
    requires Hashes(home, |t|)
  {
    forall c, x :: 0 <= c < |t| && 0 <= x < |t| && t[c].Full? && OnPath(|t|, home(t[c].key), x, c) && x != hole
      ==> t[x].Full?
  }

  /** Slot c has been scanned since the hole last moved. */
  predicate Scanned(cap: nat, hole: nat, cur: nat, c: nat)
    requires hole < cap && cur < cap && c < cap
  {
    c != hole && (cur == hole || Dist(cap, hole, c) < Dist(cap, hole, cur))
  }

  ghost predicate ScannedAvoid<V>(t: Table<V>, home: Hash, hole: nat, cur: nat)
    requires Hashes(home, |t|) && hole < |t| && cur < |t|
  {
    forall c :: 0 <= c < |t| && t[c].Full? && Scanned(|t|, hole, cur, c) ==> !OnPath(|t|, home(t[c].key), hole, c)
  }

  /** Pulling an entry back, under either rule, leaves its old slot as the only gap. */
  lemma MoveMovesTheGap<V>(t: Table<V>, home: Hash, rule: ShiftRule, hole: nat, cur: nat)
    requires Hashes(home, |t|) && hole < |t| && cur < |t| && t[hole].Empty? && t[cur].Full?
    requires ReachedBut(t, home, hole) && Pulls(t, home, rule, hole, cur)
    ensures ReachedBut(Moved(t, hole, cur), home, cur)
  {
    var u := Moved(t, hole, cur);
    forall c, x | 0 <= c < |u| && 0 <= x < |u| && u[c].Full? && OnPath(|u|, home(u[c].key), x, c) && x != cur
      ensures u[x].Full?
    {
      if x != hole {
        assert OnPath(|t|, home(u[c].key), x, if c == hole then cur else c);
        assert t[x].Full?;
      }
    }
  }

  lemma {:induction false} ShiftRestores<V>(t: Table<V>, home: Hash, hole: nat, cur: nat)
    requires Hashes(home, |t|) && hole < |t| && cur < |t| && t[hole].Empty?
    requires ReachedBut(t, home, hole) && ScannedAvoid(t, home, hole, cur)
    ensures AllReached(Shift(t, home, AtLeast, hole, cur), home)
    decreases Displacement(t, home, |t|), Dist(|t|, cur, hole)
  {
    var cap := |t|;
    if t[cur].Empty? {
      forall c | 0 <= c < cap && t[c].Full?
        ensures Reached(t, home, c)
      {
        if OnPath(cap, home(t[c].key), hole, c) {
          assert false;
        }
      }
    } else if Pulls(t, home, AtLeast, hole, cur) {
      MoveShrinksDisplacement(t, home, AtLeast, hole, cur);
      MoveMovesTheGap(t, home, AtLeast, hole, cur);
      ShiftRestores(Moved(t, hole, cur), home, cur, Next(cap, cur));
    } else {
      assert forall c :: 0 <= c < cap && Scanned(cap, hole, Next(cap, cur), c) ==> c == cur || Scanned(cap, hole, cur, c);
      ShiftRestores(t, home, hole, Next(cap, cur));
    }
  }

  /** Backward-shift deletion with the non-strict comparison: for any hash function and any
      wrap-around cluster, even from a full table, every remaining entry is still found. */
  lemma EraseAtLeastKeepsSound<V>(t: Table<V>, home: Hash, p: nat)
    requires Sound(t, home) && p < |t| && t[p].Full?
    ensures Sound(Erased(t, home, AtLeast, p), home)
  {
    ErasedRemoves(t, home, AtLeast, p);
    var v := t[p := Empty];
    VacateLeavesOneGap(t, home, p);
    assert ScannedAvoid(v, home, p, Next(|t|, p));
    ShiftRestores(v, home, p, Next(|t|, p));
  }

  lemma VacateLeavesOneGap<V>(t: Table<V>, home: Hash, p: nat)
    requires Sound(t, home) && p < |t| && t[p].Full?
    ensures ReachedBut(t[p := Empty], home, p)
  {
    var v := t[p := Empty];
    forall c, x | 0 <= c < |v| && 0 <= x < |v| && v[c].Full? && OnPath(|v|, home(v[c].key), x, c) && x != p
      ensures v[x].Full?
    {
      assert t[c] == v[c] && Reached(t, home, c);
      assert t[x] == v[x];
    }
  }

  // ---------- the strict rule of the code

  /** Slot q lies strictly between home h and position c: the strict rule pulls such an entry back
      when q is the hole. */
  predicate Across(cap: nat, h: nat, q: nat, c: nat)
    requires h < cap && q < cap && c < cap
  {
    h != q && q != c && OnPath(cap, h, q, c)
  }

  /** How many of the entries in the first n slots are displaced across slot q. */
  ghost function Load<V>(t: Table<V>, home: Hash, q: nat, n: nat): nat
    requires Hashes(home, |t|) && q < |t| && n <= |t|
  {
    if n == 0 then 0
    else Load(t, home, q, n - 1) + if t[n-1].Full? && Across(|t|, home(t[n-1].key), q, n - 1) then 1 else 0
  }

  /** Going forward from p, the hole comes to rest at q: no slot carries a lighter load, and none as
      light comes earlier. */
  ghost predicate RestsAt<V>(t: Table<V>, home: Hash, p: nat, q: nat)
    requires Hashes(home, |t|) && p < |t| && q < |t|
  {
    forall x :: 0 <= x < |t| ==> NoLaterThan(t, home, p, q, x)
  }

  ghost predicate NoLaterThan<V>(t: Table<V>, home: Hash, p: nat, q: nat, x: nat)
    requires Hashes(home, |t|) && p < |t| && q < |t| && x < |t|
  {
    Load(t, home, q, |t|) < Load(t, home, x, |t|)
    || (Load(t, home, q, |t|) == Load(t, home, x, |t|) && Dist(|t|, p, q) <= Dist(|t|, p, x))
  }

  ghost predicate IsHome<V>(t: Table<V>, home: Hash, q: nat) {
    exists c :: 0 <= c < |t| && t[c].Full? && home(t[c].key) == q
  }

  /** Erasing slot p strands an entry: the slot at which the hole comes to rest is the home of another
      entry. */
  ghost predicate Strands<V>(t: Table<V>, home: Hash, p: nat)
    requires Hashes(home, |t|) && p < |t|
  {
    RestsOnHome(t[p := Empty], home, p)
  }

  ghost predicate RestsOnHome<V>(v: Table<V>, home: Hash, p: nat)
    requires Hashes(home, |v|) && p < |v|
  {
    exists q :: 0 <= q < |v| && RestsAt(v, home, p, q) && IsHome(v, home, q)
  }

  lemma {:induction false} LoadUpdate<V>(t: Table<V>, home: Hash, q: nat, n: nat, i: nat, s: Slot<V>)
    requires Hashes(home, |t|) && q < |t| && n <= |t| && i < |t|
    ensures Load(t[i := s], home, q, n) + (if i < n && t[i].Full? && Across(|t|, home(t[i].key), q, i) then 1 else 0)
         == Load(t, home, q, n) + (if i < n && s.Full? && Across(|t|, home(s.key), q, i) then 1 else 0)
  {
    if n > 0 {
      LoadUpdate(t, home, q, n - 1, i, s);
    }
  }

  lemma {:induction false} NoLoad<V>(t: Table<V>, home: Hash, q: nat, n: nat)
    requires Hashes(home, |t|) && q < |t| && n <= |t|
    requires forall c :: 0 <= c < n && t[c].Full? ==> !Across(|t|, home(t[c].key), q, c)
    ensures Load(t, home, q, n) == 0
  {
    if n > 0 {
      NoLoad(t, home, q, n - 1);
    }
  }

  /** A pull takes one entry off every slot from the hole up to the entry's old position. */
  lemma MoveLightens<V>(t: Table<V>, home: Hash, hole: nat, cur: nat, q: nat)
    requires Hashes(home, |t|) && hole < |t| && cur < |t| && q < |t| && t[hole].Empty? && t[cur].Full?
    requires Pulls(t, home, Strict, hole, cur)
    ensures Load(t, home, q, |t|)
         == Load(Moved(t, hole, cur), home, q, |t|) + if Dist(|t|, hole, q) < Dist(|t|, hole, cur) then 1 else 0
  {
    LoadUpdate(t, home, q, |t|, hole, t[cur]);
    LoadUpdate(t[hole := t[cur]], home, q, |t|, cur, Empty);
  }

  /** What the strict scan keeps, k times around the table from slot p: v is the table just after the
      entry was vacated, and every slot the hole has passed carries one entry less for each pass. */
  ghost predicate StrictScan<V>(v: Table<V>, u: Table<V>, home: Hash, p: nat, k: nat, hole: nat, cur: nat)
    requires Hashes(home, |v|) && |u| == |v| && p < |v| && hole < |v| && cur < |v|
  {
    && u[hole].Empty? && ReachedBut(u, home, hole)
    && (forall x :: 0 <= x < |v| ==> Lightened(v, u, home, p, k, hole, x))
    && (forall c :: 0 <= c < |v| && u[c].Full? && Scanned(|v|, hole, cur, c) ==> !Across(|v|, home(u[c].key), hole, c))
  }

  ghost predicate Lightened<V>(v: Table<V>, u: Table<V>, home: Hash, p: nat, k: nat, hole: nat, x: nat)
    requires Hashes(home, |v|) && |u| == |v| && p < |v| && hole < |v| && x < |v|
  {
    Load(v, home, x, |v|)
    == Load(u, home, x, |v|) + k + if Dist(|v|, p, x) < Dist(|v|, p, hole) then 1 else 0
  }

  lemma {:induction false} StrictShift<V>(v: Table<V>, u: Table<V>, home: Hash, p: nat, k: nat, hole: nat, cur: nat)
    returns (q: nat)
    requires Hashes(home, |v|) && |u| == |v| && p < |v| && hole < |v| && cur < |v|
    requires StrictScan(v, u, home, p, k, hole, cur)
    ensures q < |v| && RestsAt(v, home, p, q)
    ensures var r := Shift(u, home, Strict, hole, cur); AllReached(r, home) <==> !IsHome(r, home, q)
    decreases Displacement(u, home, |u|), Dist(|u|, cur, hole)
  {
    var cap := |v|;
    if u[cur].Empty? {
      q := hole;
      StrictStop(v, u, home, p, k, hole, cur);
    } else if Pulls(u, home, Strict, hole, cur) {
      MoveShrinksDisplacement(u, home, Strict, hole, cur);
      var k' := if Dist(cap, p, hole) < Dist(cap, p, cur) then k else k + 1;
      StrictMove(v, u, home, p, k, k', hole, cur);
      q := StrictShift(v, Moved(u, hole, cur), home, p, k', cur, Next(cap, cur));
    } else {
      assert forall c :: 0 <= c < cap && Scanned(cap, hole, Next(cap, cur), c) ==> c == cur || Scanned(cap, hole, cur, c);
      q := StrictShift(v, u, home, p, k, hole, Next(cap, cur));
    }
  }

  lemma StrictMove<V>(v: Table<V>, u: Table<V>, home: Hash, p: nat, k: nat, k': nat, hole: nat, cur: nat)
    requires Hashes(home, |v|) && |u| == |v| && p < |v| && hole < |v| && cur < |v|
    requires StrictScan(v, u, home, p, k, hole, cur) && u[cur].Full? && Pulls(u, home, Strict, hole, cur)
    requires k' == if Dist(|v|, p, hole) < Dist(|v|, p, cur) then k else k + 1
    ensures StrictScan(v, Moved(u, hole, cur), home, p, k', cur, Next(|v|, cur))
  {
    MoveMovesTheGap(u, home, Strict, hole, cur);
    forall x | 0 <= x < |v|
      ensures Lightened(v, Moved(u, hole, cur), home, p, k', cur, x)
    {
      assert Lightened(v, u, home, p, k, hole, x);
      MoveLightens(u, home, hole, cur, x);
    }
  }

  /** Where the scan ends nothing is displaced across the hole, so the hole cuts off exactly the
      entries whose home it is. */
  lemma StrictStop<V>(v: Table<V>, u: Table<V>, home: Hash, p: nat, k: nat, hole: nat, cur: nat)
    requires Hashes(home, |v|) && |u| == |v| && p < |v| && hole < |v| && cur < |v|
    requires StrictScan(v, u, home, p, k, hole, cur) && u[cur].Empty?
    ensures RestsAt(v, home, p, hole)
    ensures AllReached(u, home) <==> !IsHome(u, home, hole)
  {
    var cap := |v|;
    forall c | 0 <= c < cap && u[c].Full?
      ensures !Across(cap, home(u[c].key), hole, c)
      ensures Reached(u, home, c) <==> home(u[c].key) != hole
    {
      if Across(cap, home(u[c].key), hole, c) {
        assert false;
      }
      assert Reached(u, home, c) <==> !OnPath(cap, home(u[c].key), hole, c);
    }
    NoLoad(u, home, hole, cap);
    assert Lightened(v, u, home, p, k, hole, hole);
    forall x | 0 <= x < cap
      ensures NoLaterThan(v, home, p, hole, x)
    {
      assert Lightened(v, u, home, p, k, hole, x);
    }
  }

  /** Exactly when the code's strict comparison leaves a sound table, a full one included: the erase
      must not strand an entry, which the caller can see from the table before the call. */
  lemma EraseStrictKeepsSoundIff<V>(t: Table<V>, home: Hash, p: nat)
    requires Sound(t, home) && p < |t| && t[p].Full?
    ensures Sound(Erased(t, home, Strict, p), home) <==> !Strands(t, home, p)
  {
    var v, u := t[p := Empty], Erased(t, home, Strict, p);
    ErasedRemoves(t, home, Strict, p);
    VacateRemoves(t, p);
    VacateLeavesOneGap(t, home, p);
    assert forall x :: 0 <= x < |v| ==> Lightened(v, v, home, p, 0, p, x);
    var r := StrictShift(v, v, home, p, 0, p, Next(|t|, p));
    SameHomes(v, u, home, r);
    if Strands(t, home, p) {
      var q :| 0 <= q < |t| && RestsAt(v, home, p, q) && IsHome(v, home, q);
      assert NoLaterThan(v, home, p, q, r) && NoLaterThan(v, home, p, r, q);
    }
  }

  lemma SameHomes<V>(t: Table<V>, u: Table<V>, home: Hash, q: nat)
    requires UniqueKeys(t) && UniqueKeys(u) && Contents(t) == Contents(u)
    ensures IsHome(t, home, q) <==> IsHome(u, home, q)
  {
    ContentsHolds(t);
    ContentsHolds(u);
    if c :| 0 <= c < |t| && t[c].Full? && home(t[c].key) == q {
      assert HasKey(u, t[c].key);
    }
    if c :| 0 <= c < |u| && u[c].Full? && home(u[c].key) == q {
      assert HasKey(t, u[c].key);
    }
  }

  /** The smallest failure: two keys share a home slot and the first of them is erased. The code
      leaves the second in the table where no probe reaches it. */
  lemma StrictEraseLosesAKey()
    ensures
      var home: Hash := (k: Key) => 0;
      var t: Table<int> := [Full(7, 70), Full(9, 90), Empty, Empty];
      && Sound(t, home) && Probe(t, home, 9) == Some(1)
      && Erased(t, home, Strict, 0) == [Empty, Full(9, 90), Empty, Empty]
      && HasKey(Erased(t, home, Strict, 0), 9) && Probe(Erased(t, home, Strict, 0), home, 9) == None
      && Erased(t, home, AtLeast, 0) == [Full(9, 90), Empty, Empty, Empty]
  {
    var home: Hash := (k: Key) => 0;
    var t: Table<int> := [Full(7, 70), Full(9, 90), Empty, Empty];
    assert Probe(t, home, 9) == Some(1) by {
      assert Walk(t, 9, 1, 3) == Some(1);
    }
    var v: Table<int> := [Empty, Full(9, 90), Empty, Empty];
    assert t[0 := Empty] == v;
    assert Shift(v, home, Strict, 0, 1) == v by {
      assert Shift(v, home, Strict, 0, 2) == v;
    }
    assert v[1].key == 9;
    var w: Table<int> := [Full(9, 90), Empty, Empty, Empty];
    assert Shift(v, home, AtLeast, 0, 1) == w by {
      assert Moved(v, 0, 1) == w;
      assert Shift(w, home, AtLeast, 1, 2) == w;
    }
  }

  /** On a full table the scan may go around more than once; here it strands two entries. */
  lemma StrictEraseOfFullTable()
    ensures
      var home: Hash := (k: Key) => if k == 11 then 2 else 0;
      var t: Table<int> := [Full(10, 0), Full(11, 0), Full(12, 0), Full(13, 0)];
      && Sound(t, home) && !HasEmpty(t)
      && Erased(t, home, Strict, 0) == [Empty, Full(12, 0), Full(13, 0), Full(11, 0)]
      && !Sound(Erased(t, home, Strict, 0), home)
  {
    var home: Hash := (k: Key) => if k == 11 then 2 else 0;
    var t4 := FullTableScan(home);
    assert [Full(10, 0), Full(11, 0), Full(12, 0), Full(13, 0)][0 := Empty] == [Empty, Full(11, 0), Full(12, 0), Full(13, 0)];
    hide Shift;
    assert !Reached(t4, home, 1) by {
      assert OnPath(4, home(t4[1].key), 0, 1);
    }
  }

  lemma FullTableScan(home: Hash) returns (t4: Table<int>)
    requires forall k: Key :: home(k) == if k == 11 then 2 else 0
    ensures t4 == [Empty, Full(12, 0), Full(13, 0), Full(11, 0)]
    ensures Shift([Empty, Full(11, 0), Full(12, 0), Full(13, 0)], home, Strict, 0, 1) == t4
  {
    var t0: Table<int> := [Empty, Full(11, 0), Full(12, 0), Full(13, 0)];
    var t1: Table<int> := [Full(11, 0), Empty, Full(12, 0), Full(13, 0)];
    var t2: Table<int> := [Full(11, 0), Full(12, 0), Empty, Full(13, 0)];
    var t3: Table<int> := [Full(11, 0), Full(12, 0), Full(13, 0), Empty];
    t4 := [Empty, Full(12, 0), Full(13, 0), Full(11, 0)];
    assert Shift(t4, home, Strict, 0, 3) == t4;
    assert Shift(t4, home, Strict, 0, 1) == Shift(t4, home, Strict, 0, 2) == t4;
    ShiftPulls(t3, t4, home, 3, 0);
    ShiftPulls(t2, t3, home, 2, 3);
    ShiftPulls(t1, t2, home, 1, 2);
    ShiftPulls(t0, t1, home, 0, 1);
  }

  lemma ShiftPulls(t: Table<int>, u: Table<int>, home: Hash, hole: nat, cur: nat)
    requires Hashes(home, |t|) && hole < |t| && cur < |t| && t[hole].Empty? && t[cur].Full?
    requires Pulls(t, home, Strict, hole, cur) && u == Moved(t, hole, cur)
    ensures Shift(t, home, Strict, hole, cur) == Shift(u, home, Strict, cur, Next(|t|, cur))
  {
  }

  // ---------- addresses: the book keeps pointers into the slots

  /** No other entry's probe path crosses slot p. */
  ghost predicate Clean<V>(t: Table<V>, home: Hash, p: nat)
    requires Hashes(home, |t|) && p < |t|
  {
    forall c :: 0 <= c < |t| && t[c].Full? && c != p ==> !OnPath(|t|, home(t[c].key), p, c)
  }

  lemma {:induction false} CleanShiftStays<V>(t: Table<V>, home: Hash, rule: ShiftRule, hole: nat, cur: nat)
    requires Hashes(home, |t|) && hole < |t| && cur < |t| && t[hole].Empty? && Clean(t, home, hole)
    ensures Shift(t, home, rule, hole, cur) == t
    decreases Dist(|t|, cur, hole)
  {
    if t[cur].Full? {
      assert !Pulls(t, home, rule, hole, cur);
      CleanShiftStays(t, home, rule, hole, Next(|t|, cur));
    }
  }

  lemma CleanEraseOnlyVacates<V>(t: Table<V>, home: Hash, rule: ShiftRule, p: nat)
    requires Sound(t, home) && p < |t| && t[p].Full? && Clean(t, home, p)
    ensures Erased(t, home, rule, p) == t[p := Empty] && Sound(t[p := Empty], home)
  {
    var v := t[p := Empty];
    assert Clean(v, home, p);
    CleanShiftStays(v, home, rule, p, Next(|t|, p));
    VacateRemoves(t, p);
    VacateLeavesOneGap(t, home, p);
    assert forall c :: 0 <= c < |v| && v[c].Full? ==> Reached(v, home, c);
  }

  /** An erase that relocates nothing has only emptied the slot. */
  lemma UnmovedEraseOnlyVacates<V>(t: Table<V>, home: Hash, rule: ShiftRule, p: nat)
    requires Sound(t, home) && p < |t| && t[p].Full?
    requires forall c :: 0 <= c < |t| && c != p ==> Erased(t, home, rule, p)[c] == t[c]
    ensures Erased(t, home, rule, p)[p].Empty?
  {
    var u := Erased(t, home, rule, p);
    ErasedRemoves(t, home, rule, p);
    if u[p].Full? {
      var k := u[p].key;
      ContentsHolds(t);
      ContentsHolds(u);
      assert HasKey(u, k);
      var c :| 0 <= c < |t| && t[c].Full? && t[c].key == k;
      KeyAt(u, c, p);
    }
  }

  /** Under either rule, an erase keeps the other entries both where they are and findable exactly
      when no other probe path crosses the erased slot. */
  lemma EraseInPlaceIff<V>(t: Table<V>, home: Hash, rule: ShiftRule, p: nat)
    requires Sound(t, home) && p < |t| && t[p].Full?
    ensures var u := Erased(t, home, rule, p);
            (Sound(u, home) && forall c :: 0 <= c < |t| && c != p ==> u[c] == t[c]) <==> Clean(t, home, p)
  {
    var u := Erased(t, home, rule, p);
    if Clean(t, home, p) {
      CleanEraseOnlyVacates(t, home, rule, p);
    }
    if Sound(u, home) && forall c :: 0 <= c < |t| && c != p ==> u[c] == t[c] {
      UnmovedEraseOnlyVacates(t, home, rule, p);
      forall c | 0 <= c < |t| && t[c].Full? && c != p
        ensures !OnPath(|t|, home(t[c].key), p, c)
      {
        assert u[c] == t[c] && Reached(u, home, c);
      }
    }
  }

  /** The code's comparison, where it does pull an entry back, copies it to another address. */
  lemma StrictEraseRelocates()
    ensures
      var home: Hash := (k: Key) => 3;
      var t: Table<int> := [Full(11, 0), Full(12, 0), Empty, Full(10, 0)];
      && Sound(t, home) && HasEmpty(t) && !Clean(t, home, 0)
      && Erased(t, home, Strict, 0) == [Full(12, 0), Empty, Empty, Full(10, 0)]
      && Sound(Erased(t, home, Strict, 0), home)
  {
    var home: Hash := (k: Key) => 3;
    var t: Table<int> := [Full(11, 0), Full(12, 0), Empty, Full(10, 0)];
    assert t[2].Empty?;
    var v: Table<int> := [Empty, Full(12, 0), Empty, Full(10, 0)];
    var u: Table<int> := [Full(12, 0), Empty, Empty, Full(10, 0)];
    assert t[0 := Empty] == v;
    ShiftPulls(v, u, home, 0, 1);
    assert Shift(u, home, Strict, 1, 2) == u;
    hide Shift;
    assert !Clean(t, home, 0) by {
      assert t[1].Full? && OnPath(4, home(t[1].key), 0, 1);
    }
  }
}
