/**
 The persona form's session state: a map from slot keys (`name_0`,
 `profession_2`, ...) to the text typed so far. Each rerun of the script
 first prunes the slots at or above the requested count, then lazily creates
 empty entries for the slots below it; the form then writes the typed values
 back.
 */
module Session {
  import opened Wrappers
  import opened Keys

  type SlotMap = map<string, string>

  /** The form's upper bound on the number of personas. */
  const MaxPersonas: nat := 10

  /** The persona count accepted by the number input: 1 to MaxPersonas. */
  type Count = n: nat | 1 <= n <= MaxPersonas witness 1

  /** Every key's suffix converts to an integer; otherwise the pruning loop
      raises on that key. */
  predicate AllKeysParse(m: SlotMap) {
    forall k :: k in m ==> ParseIndex(k).Some?
  }

  /** A key the script itself builds: some field and some slot index. */
  ghost predicate IsSlotKey(k: string) {
    exists f: Field, i: nat :: k == MakeKey(f, i)
  }

  /** Every key of the map is a slot key. */
  ghost predicate WellFormed(m: SlotMap) {
    forall k :: k in m ==> IsSlotKey(k)
  }

  /** The keys of the first n slots, four per slot. */
  function SlotKeys(n: nat): set<string> {
    set i: nat, f: Field | i < n :: MakeKey(f, i)
  }

  /** All four keys of slot i are present. */
  predicate HasSlot(m: SlotMap, i: nat) {
    && MakeKey(Name, i) in m
    && MakeKey(Dob, i) in m
    && MakeKey(Profession, i) in m
    && MakeKey(Description, i) in m
  }

  /** All four keys of each of the first n slots are present. */
  predicate HasSlots(m: SlotMap, n: nat) {
    forall i: nat :: i < n ==> HasSlot(m, i)
  }

  lemma SlotKeyParses(k: string)
    requires IsSlotKey(k)
    ensures ParseIndex(k).Some?
    ensures forall f: Field, i: nat :: k == MakeKey(f, i) ==> ParseIndex(k) == Some(i)
  {
    forall f: Field, i: nat | k == MakeKey(f, i)
      ensures ParseIndex(k) == Some(i)
    {
      KeyIndexRoundTrip(f, i);
    }
  }

  /** A map whose keys are all slot keys never makes the suffix parse fail. */
  lemma WellFormedParses(m: SlotMap)
    requires WellFormed(m)
    ensures AllKeysParse(m)
  {
    forall k | k in m
      ensures ParseIndex(k).Some?
    {
      SlotKeyParses(k);
    }
  }

  /** Membership in SlotKeys, read through the suffix parse. */
  lemma SlotKeysIndex(n: nat, k: string)
    requires k in SlotKeys(n)
    ensures IsSlotKey(k)
    ensures ParseIndex(k).Some? && ParseIndex(k).value < n
  {
    var i: nat, f: Field :| i < n && k == MakeKey(f, i);
    KeyIndexRoundTrip(f, i);
  }

  /* ---------------- pruning (app.py:61-64) ---------------- */

  /** The entries whose index lies below n, with their values. */
  function Prune(m: SlotMap, n: nat): (r: SlotMap)
    requires AllKeysParse(m)
    ensures r.Keys <= m.Keys
    ensures forall k :: k in r ==> ParseIndex(k).value < n
    ensures forall k :: k in m && ParseIndex(k).value < n ==> k in r && r[k] == m[k]
  {
    map k | k in m && ParseIndex(k).value < n :: m[k]
  }

  /** The pruning loop: visits the keys present at its start, in any order,
      and deletes each one whose suffix is at least n. */
  method PruneSlots(m: SlotMap, n: nat) returns (r: SlotMap)
    requires AllKeysParse(m)
    ensures forall k :: k in r <==> k in m && ParseIndex(k).value < n
    ensures forall k :: k in r ==> r[k] == m[k]
    ensures r == Prune(m, n)
  {
    r := m;
    var pending := m.Keys;
    while pending != {}
      invariant pending <= m.Keys
      invariant forall k :: k in pending ==> k in r
      invariant forall k :: k in r ==> k in m && r[k] == m[k]
      invariant forall k :: k in m && k !in pending ==> (k in r <==> ParseIndex(k).value < n)
      decreases pending
    {
      var key :| key in pending;
      if ParseIndex(key).value >= n {
        r := r - {key};
      }
      pending := pending - {key};
    }
    assert r.Keys == Prune(m, n).Keys;
  }

  /* ---------------- lazy initialisation (app.py:67-75) ---------------- */

  /** The map with every missing key of the first n slots added as "". */
  function Populate(m: SlotMap, n: nat): (r: SlotMap)
    ensures r.Keys == m.Keys + SlotKeys(n)
    ensures HasSlots(r, n)
    ensures forall k :: k in m ==> r[k] == m[k]
    ensures forall k :: k in r && k !in m ==> r[k] == ""
  {
    map k | k in m.Keys + SlotKeys(n) :: if k in m then m[k] else ""
  }

  /** The four keys of slot i. */
  function KeysOfSlot(i: nat): set<string> {
    {MakeKey(Name, i), MakeKey(Dob, i), MakeKey(Profession, i), MakeKey(Description, i)}
  }

  lemma SlotKeysStep(i: nat)
    ensures SlotKeys(i + 1) == SlotKeys(i) + KeysOfSlot(i)
  {
  }

  /** r extends m: every entry of m is kept, and every added entry is "". */
  predicate Grows(m: SlotMap, r: SlotMap) {
    && (forall k :: k in m ==> k in r && r[k] == m[k])
    && (forall k :: k in r && k !in m ==> r[k] == "")
  }

  lemma GrowsTransitive(a: SlotMap, b: SlotMap, c: SlotMap)
    requires Grows(a, b) && Grows(b, c)
    ensures Grows(a, c)
  {
  }

  /** One `if key not in state: state[key] = ""` step. */
  function AddMissing(m: SlotMap, key: string): (r: SlotMap)
    ensures r.Keys == m.Keys + {key}
    ensures Grows(m, r)
  {
    if key in m then m else m[key := ""]
  }

  /** Four `if key not in state: state[key] = ""` steps in a row. */
  function AddMissing4(m: SlotMap, a: string, b: string, c: string, d: string): (r: SlotMap)
    ensures r.Keys == m.Keys + {a, b, c, d}
    ensures Grows(m, r)
  {
    var m1 := AddMissing(m, a);
    var m2 := AddMissing(m1, b);
    var m3 := AddMissing(m2, c);
    var r := AddMissing(m3, d);
    GrowsTransitive(m, m1, m2);
    GrowsTransitive(m, m2, m3);
    GrowsTransitive(m, m3, r);
    r
  }

  /** The four `if key not in state` steps for slot i. */
  function AddSlot(m: SlotMap, i: nat): (r: SlotMap)
    ensures r.Keys == m.Keys + KeysOfSlot(i)
    ensures forall k :: k in m ==> r[k] == m[k]
    ensures forall k :: k in r && k !in m ==> r[k] == ""
  {
    AddMissing4(m, MakeKey(Name, i), MakeKey(Dob, i), MakeKey(Profession, i), MakeKey(Description, i))
  }

  /** A map with the keys and values Populate describes is Populate's result. */
  lemma PopulateUnique(m: SlotMap, n: nat, r: SlotMap)
    requires r.Keys == m.Keys + SlotKeys(n)
    requires forall k :: k in m ==> r[k] == m[k]
    requires forall k :: k in r && k !in m ==> r[k] == ""
    ensures r == Populate(m, n)
  {
    assert r.Keys == Populate(m, n).Keys;
  }

  /** The initialisation loop: for each slot below n, creates each of the
      four keys that is missing with an empty value. */
  method InitSlots(m: SlotMap, n: nat) returns (r: SlotMap)
    ensures r.Keys == m.Keys + SlotKeys(n)
    ensures forall k :: k in m ==> r[k] == m[k]
    ensures forall k :: k in r && k !in m ==> r[k] == ""
    ensures r == Populate(m, n)
  {
    r := m;
    var i := 0;
    while i < n
      invariant i <= n
      invariant r.Keys == m.Keys + SlotKeys(i)
      invariant forall k :: k in m ==> r[k] == m[k]
      invariant forall k :: k in r && k !in m ==> r[k] == ""
    {
      SlotKeysStep(i);
      r := AddSlot(r, i);
      i := i + 1;
    }
    PopulateUnique(m, n, r);
  }

  /* ---------------- one rerun of the sync block (app.py:57-75) ---------------- */

  /** The state a sync leaves behind: pruned, then lazily initialised. */
  function Synced(m: SlotMap, n: nat): SlotMap
    requires AllKeysParse(m)
  {
    Populate(Prune(m, n), n)
  }

  /** One rerun of the sync block with the count n from the number input. */
  method Sync(m: SlotMap, n: Count) returns (r: SlotMap)
    requires AllKeysParse(m)
    ensures HasSlots(r, n)
    ensures r == Synced(m, n)
  {
    r := PruneSlots(m, n);
    r := InitSlots(r, n);
  }

  /** The keys of the first `big` slots whose index is below `small` are
      the keys of the first `small` slots. */
  lemma SlotKeysBelow(small: nat, big: nat, k: string)
    requires small <= big
    ensures k in SlotKeys(big) && ParseIndex(k).Some? && ParseIndex(k).value < small <==> k in SlotKeys(small)
  {
    if k in SlotKeys(big) {
      var i: nat, f: Field :| i < big && k == MakeKey(f, i);
      KeyIndexRoundTrip(f, i);
    }
    if k in SlotKeys(small) {
      SlotKeysIndex(small, k);
      var i: nat, f: Field :| i < small && k == MakeKey(f, i);
      assert k in SlotKeys(big);
    }
  }

  /** After a sync every key still parses and names a slot below n. */
  lemma SyncIndicesBelow(m: SlotMap, n: nat)
    requires AllKeysParse(m)
    ensures AllKeysParse(Synced(m, n))
    ensures forall k :: k in Synced(m, n) ==> ParseIndex(k).value < n
  {
    forall k | k in SlotKeys(n)
      ensures ParseIndex(k).Some? && ParseIndex(k).value < n
    {
      SlotKeysIndex(n, k);
    }
  }

  /** Starting from keys the script built, a sync leaves exactly the keys of
      the first n slots, keeps the value of every retained entry and gives
      every new entry "". */
  lemma SyncExactSlots(m: SlotMap, n: nat)
    requires WellFormed(m)
    ensures AllKeysParse(m)
    ensures Synced(m, n).Keys == SlotKeys(n)
    ensures forall k :: k in m && k in SlotKeys(n) ==> Synced(m, n)[k] == m[k]
    ensures forall k :: k in SlotKeys(n) && k !in m ==> Synced(m, n)[k] == ""
  {
    WellFormedParses(m);
    var p := Prune(m, n);
    forall k | k in p
      ensures k in SlotKeys(n)
    {
      var f: Field, i: nat :| k == MakeKey(f, i);
      KeyIndexRoundTrip(f, i);
    }
    forall k | k in m && k in SlotKeys(n)
      ensures k in p
    {
      SlotKeysIndex(n, k);
    }
  }

  /** A sync preserves the invariant that every key is a slot key, so the
      suffix parse never fails on any rerun that starts from the empty map. */
  lemma SyncPreservesWellFormed(m: SlotMap, n: nat)
    requires WellFormed(m)
    ensures AllKeysParse(m)
    ensures WellFormed(Synced(m, n))
  {
    SyncExactSlots(m, n);
    forall k | k in SlotKeys(n)
      ensures IsSlotKey(k)
    {
      SlotKeysIndex(n, k);
    }
  }

  lemma PruneTwice(m: SlotMap, small: nat, big: nat)
    requires AllKeysParse(m) && small <= big
    ensures Prune(Prune(m, big), small) == Prune(m, small)
  {
  }

  lemma PopulateTwice(m: SlotMap, n: nat)
    ensures Populate(Populate(m, n), n) == Populate(m, n)
  {
  }

  /** Initialisation only adds keys whose suffix parses. */
  lemma PopulateParses(m: SlotMap, n: nat)
    requires AllKeysParse(m)
    ensures AllKeysParse(Populate(m, n))
  {
    forall k | k in SlotKeys(n)
      ensures ParseIndex(k).Some?
    {
      SlotKeysIndex(n, k);
    }
  }

  /** Pruning below `small` after initialising `big` slots equals
      initialising the `small` slots of the pruned map. */
  lemma PrunePopulate(m: SlotMap, small: nat, big: nat)
    requires AllKeysParse(m) && small <= big
    ensures AllKeysParse(Populate(m, big))
    ensures Prune(Populate(m, big), small) == Populate(Prune(m, small), small)
  {
    PopulateParses(m, big);
    var pop := Populate(m, big);
    var lhs := Prune(pop, small);
    var pruned := Prune(m, small);
    var rhs := Populate(pruned, small);
    forall k
      ensures k in lhs <==> k in rhs
      ensures k in lhs ==> lhs[k] == rhs[k]
    {
      SlotKeysBelow(small, big, k);
      if k in lhs {
        assert lhs[k] == pop[k];
        assert k in m <==> k in pruned;
      }
    }
    assert lhs.Keys == rhs.Keys;
  }

  /** Re-running the sync block with the same count changes nothing. */
  lemma SyncIdempotent(m: SlotMap, n: nat)
    requires AllKeysParse(m)
    ensures AllKeysParse(Synced(m, n))
    ensures Synced(Synced(m, n), n) == Synced(m, n)
  {
    ShrinkAfterGrow(m, n, n);
  }

  /** Lowering the count after raising it leaves exactly what lowering it
      directly would: values typed into the retained slots survive. */
  lemma ShrinkAfterGrow(m: SlotMap, small: nat, big: nat)
    requires AllKeysParse(m)
    requires small <= big
    ensures AllKeysParse(Synced(m, big))
    ensures Synced(Synced(m, big), small) == Synced(m, small)
  {
    SyncIndicesBelow(m, big);
    PrunePopulate(Prune(m, big), small, big);
    PruneTwice(m, small, big);
    PopulateTwice(Prune(m, small), small);
  }

  /* ---------------- the form's write-back (app.py:78-91) ---------------- */

  /** The four values of one persona slot. */
  datatype Slot = Slot(name: string, dob: string, profession: string, description: string)

  /** The four values stored for slot i. */
  function ReadSlot(m: SlotMap, i: nat): Slot
    requires HasSlot(m, i)
  {
    Slot(m[MakeKey(Name, i)], m[MakeKey(Dob, i)], m[MakeKey(Profession, i)], m[MakeKey(Description, i)])
  }

  /** Keys of slot j are not keys of any other slot i. */
  lemma OtherSlotKeys(i: nat, j: nat, f: Field)
    requires i != j
    ensures MakeKey(f, j) !in KeysOfSlot(i)
  {
    MakeKeyInjective(f, j, Name, i);
    MakeKeyInjective(f, j, Dob, i);
    MakeKeyInjective(f, j, Profession, i);
    MakeKeyInjective(f, j, Description, i);
  }

  /** Stores the four values typed for slot i; nothing else changes. */
  function WriteSlot(m: SlotMap, i: nat, s: Slot): (r: SlotMap)
    requires HasSlot(m, i)
    ensures HasSlot(r, i) && ReadSlot(r, i) == s
    ensures r.Keys == m.Keys
    ensures forall k :: k in m && k !in KeysOfSlot(i) ==> r[k] == m[k]
  {
    MakeKeyInjective(Name, i, Dob, i);
    MakeKeyInjective(Name, i, Profession, i);
    MakeKeyInjective(Name, i, Description, i);
    MakeKeyInjective(Dob, i, Profession, i);
    MakeKeyInjective(Dob, i, Description, i);
    MakeKeyInjective(Profession, i, Description, i);
    m[MakeKey(Name, i) := s.name][MakeKey(Dob, i) := s.dob]
     [MakeKey(Profession, i) := s.profession][MakeKey(Description, i) := s.description]
  }

  /** Presence of the slots depends on the key set only. */
  lemma SameKeysHasSlots(m: SlotMap, r: SlotMap, n: nat)
    requires HasSlots(m, n) && r.Keys == m.Keys
    ensures HasSlots(r, n)
  {
    forall i: nat | i < n
      ensures HasSlot(r, i)
    {
      assert HasSlot(m, i);
    }
  }

  lemma HasSlotsPrefix(m: SlotMap, n: nat, k: nat)
    requires HasSlots(m, n) && k <= n
    ensures HasSlots(m, k)
  {
  }

  /** Writing slot i leaves slot j, for j != i, as it was. */
  lemma WriteSlotKeepsOthers(m: SlotMap, i: nat, s: Slot, j: nat)
    requires HasSlot(m, i) && HasSlot(m, j) && i != j
    ensures HasSlot(WriteSlot(m, i, s), j)
    ensures ReadSlot(WriteSlot(m, i, s), j) == ReadSlot(m, j)
  {
    OtherSlotKeys(i, j, Name);
    OtherSlotKeys(i, j, Dob);
    OtherSlotKeys(i, j, Profession);
    OtherSlotKeys(i, j, Description);
  }

  /** The form loop: overwrites the values typed into each of the first
      |inputs| slots; every other entry is left alone. Each widget reads its
      key before the write, so every key must already be there. */
  function Record(m: SlotMap, inputs: seq<Slot>): (r: SlotMap)
    requires HasSlots(m, |inputs|)
    ensures r.Keys == m.Keys
    ensures HasSlots(r, |inputs|)
    ensures forall k :: k in m && k !in SlotKeys(|inputs|) ==> r[k] == m[k]
    decreases |inputs|
  {
    if |inputs| == 0 then m
    else
      var i := |inputs| - 1;
      assert HasSlot(m, i);
      var p := Record(m, inputs[..i]);
      assert HasSlot(p, i);
      SameKeysHasSlots(m, WriteSlot(p, i, inputs[i]), |inputs|);
      WriteSlot(p, i, inputs[i])
  }

  lemma RecordStep(m: SlotMap, inputs: seq<Slot>)
    requires |inputs| > 0 && HasSlots(m, |inputs|)
    ensures HasSlot(Record(m, inputs[..|inputs| - 1]), |inputs| - 1)
    ensures Record(m, inputs) == WriteSlot(Record(m, inputs[..|inputs| - 1]), |inputs| - 1, inputs[|inputs| - 1])
  {
    var i := |inputs| - 1;
    assert HasSlot(m, i);
    HasSlotsPrefix(m, |inputs|, i);
    assert Record(m, inputs[..i]).Keys == m.Keys;
  }

  /** Reading a slot back after the form loop gives what was typed into it. */
  lemma {:induction false} RecordReadBack(m: SlotMap, inputs: seq<Slot>, j: nat)
    requires j < |inputs| && HasSlots(m, |inputs|)
    ensures ReadSlot(Record(m, inputs), j) == inputs[j]
    decreases |inputs|
  {
    var i := |inputs| - 1;
    HasSlotsPrefix(m, |inputs|, i);
    RecordStep(m, inputs);
    if j < i {
      RecordReadBack(m, inputs[..i], j);
      assert inputs[..i][j] == inputs[j];
      RecordKeepsEarlier(m, inputs, j);
    }
  }

  /** The last write of the form loop does not disturb an earlier slot. */
  lemma RecordKeepsEarlier(m: SlotMap, inputs: seq<Slot>, j: nat)
    requires j + 1 < |inputs| && HasSlots(m, |inputs|)
    ensures HasSlots(m, |inputs| - 1)
    ensures ReadSlot(Record(m, inputs), j) == ReadSlot(Record(m, inputs[..|inputs| - 1]), j)
  {
    var i := |inputs| - 1;
    HasSlotsPrefix(m, |inputs|, i);
    var p := Record(m, inputs[..i]);
    SameKeysHasSlots(m, p, |inputs|);
    assert HasSlot(p, i) && HasSlot(p, j);
    RecordStep(m, inputs);
    WriteSlotKeepsOthers(p, i, inputs[i], j);
  }

  /** One full rerun (sync, then the form's write-back) keeps every key a
      slot key and leaves exactly the keys of the first n slots, each holding
      what was typed into it. */
  lemma RerunState(m: SlotMap, n: nat, inputs: seq<Slot>)
    requires WellFormed(m)
    requires |inputs| == n
    ensures AllKeysParse(m)
    ensures WellFormed(Record(Synced(m, n), inputs))
    ensures Record(Synced(m, n), inputs).Keys == SlotKeys(n)
    ensures forall i :: 0 <= i < n ==> ReadSlot(Record(Synced(m, n), inputs), i) == inputs[i]
  {
    SyncExactSlots(m, n);
    SyncPreservesWellFormed(m, n);
    forall i | 0 <= i < n
      ensures ReadSlot(Record(Synced(m, n), inputs), i) == inputs[i]
    {
      RecordReadBack(Synced(m, n), inputs, i);
    }
  }

  lemma NotAnEarlierSlotKey(f: Field, i: nat)
    ensures MakeKey(f, i) !in SlotKeys(i)
  {
    if MakeKey(f, i) in SlotKeys(i) {
      var j: nat, g: Field :| j < i && MakeKey(f, i) == MakeKey(g, j);
      MakeKeyInjective(f, i, g, j);
    }
  }

  /** The four keys of a slot are distinct. */
  lemma KeysOfSlotSize(i: nat)
    ensures |KeysOfSlot(i)| == 4
  {
    MakeKeyInjective(Name, i, Dob, i);
    MakeKeyInjective(Name, i, Profession, i);
    MakeKeyInjective(Name, i, Description, i);
    MakeKeyInjective(Dob, i, Profession, i);
    MakeKeyInjective(Dob, i, Description, i);
    MakeKeyInjective(Profession, i, Description, i);
  }

  /** No key of slot i is a key of an earlier slot. */
  lemma KeysOfSlotFresh(i: nat)
    ensures SlotKeys(i) !! KeysOfSlot(i)
  {
    NotAnEarlierSlotKey(Name, i);
    NotAnEarlierSlotKey(Dob, i);
    NotAnEarlierSlotKey(Profession, i);
    NotAnEarlierSlotKey(Description, i);
  }

  lemma DisjointUnionSize<T>(c: set<T>, a: set<T>, b: set<T>)
    requires c == a + b && a !! b
    ensures |c| == |a| + |b|
  {
    assert a * b == {};
  }

  /** Each further slot adds four new keys. */
  lemma SlotKeysGrowByFour(i: nat)
    ensures |SlotKeys(i + 1)| == |SlotKeys(i)| + 4
  {
    SlotKeysStep(i);
    KeysOfSlotSize(i);
    KeysOfSlotFresh(i);
    DisjointUnionSize(SlotKeys(i + 1), SlotKeys(i), KeysOfSlot(i));
  }

  /** The first n slots have exactly 4 * n keys: no two (field, index)
      pairs share a key. */
  lemma {:induction false} SlotKeysCount(n: nat)
    ensures |SlotKeys(n)| == 4 * n
  {
    if n > 0 {
      SlotKeysCount(n - 1);
      SlotKeysGrowByFour(n - 1);
    }
  }
}
