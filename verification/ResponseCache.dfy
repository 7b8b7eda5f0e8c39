/** The byte-budgeted response store of src/cache.rs: a table from cache key to the list of
    stored variants, expiry on lookup, soonest-to-expire eviction on insertion. */
module ResponseCache {
  import opened Common
  import opened VarySignature

  datatype Entry = Entry(status: nat, headers: Headers, body: string, expiresAt: nat,
                         varyHeaders: seq<string>, varySignature: string)

  type Table = map<string, seq<Entry>>

  datatype State = State(entries: Table, totalBytes: nat)

  /** An entry chosen for eviction, with the key it is filed under. */
  datatype Victim = Victim(key: string, entry: Entry)

  function HeaderBytes(h: Headers): nat {
    if h == [] then 0 else |h[0].0| + |h[0].1| + HeaderBytes(h[1..])
  }

  function NameBytes(names: seq<string>): nat {
    if names == [] then 0 else |names[0]| + NameBytes(names[1..])
  }

  function EntryBytes(e: Entry): nat {
    |e.body| + HeaderBytes(e.headers) + (NameBytes(e.varyHeaders) + |e.varySignature|)
  }

  /** The names and values of all headers, one after the other. */
  ghost function HeaderText(h: Headers): string {
    if h == [] then "" else h[0].0 + h[0].1 + HeaderText(h[1..])
  }

  ghost function NameText(names: seq<string>): string {
    if names == [] then "" else names[0] + NameText(names[1..])
  }

  lemma {:induction false} HeaderBytesIsLength(h: Headers)
    ensures HeaderBytes(h) == |HeaderText(h)|
  {
    if h != [] {
      HeaderBytesIsLength(h[1..]);
    }
  }

  lemma {:induction false} NameBytesIsLength(names: seq<string>)
    ensures NameBytes(names) == |NameText(names)|
  {
    if names != [] {
      NameBytesIsLength(names[1..]);
    }
  }

  /** The weight of an entry is the length of all the text it stores. */
  lemma EntryBytesIsLength(e: Entry)
    ensures EntryBytes(e) == |e.body + HeaderText(e.headers) + NameText(e.varyHeaders) + e.varySignature|
  {
    HeaderBytesIsLength(e.headers);
    NameBytesIsLength(e.varyHeaders);
  }

  // ----- Sums over a table -----

  ghost function SumList(vs: seq<Entry>, f: Entry -> nat): nat {
    if vs == [] then 0 else f(vs[0]) + SumList(vs[1..], f)
  }

  ghost function PickKey(m: Table): (k: string)
    requires m != map[]
    ensures k in m
  {
    var k :| k in m; k
  }

  ghost function SumTable(m: Table, f: Entry -> nat): nat {
    if m == map[] then 0
    else var k := PickKey(m); SumList(m[k], f) + SumTable(m - {k}, f)
  }

  ghost function One(e: Entry): nat { 1 }

  lemma {:induction false} SumTableAt(m: Table, k: string, f: Entry -> nat)
    requires k in m
    ensures SumTable(m, f) == SumList(m[k], f) + SumTable(m - {k}, f)
    decreases |m|
  {
    var p := PickKey(m);
    if p != k {
      SumTableAt(m - {p}, k, f);
      SumTableAt(m - {k}, p, f);
      assert m - {p} - {k} == m - {k} - {p};
    }
  }

  /** Rewriting the list under one key changes the sum by the difference of the lists. */
  lemma SumTableSet(m: Table, k: string, vs: seq<Entry>, f: Entry -> nat)
    ensures SumTable(SetOrDrop(m, k, vs), f) + SumList(Variants(m, k), f)
         == SumTable(m, f) + SumList(vs, f)
  {
    var m' := SetOrDrop(m, k, vs);
    assert m' - {k} == m - {k};
    if k in m { SumTableAt(m, k, f); } else { assert m - {k} == m; }
    if k in m' { SumTableAt(m', k, f); } else { assert m' - {k} == m'; }
  }

  // ----- One lookup -----

  /** The variants that have not expired, in their stored order. */
  ghost function Fresh(vs: seq<Entry>, now: nat): seq<Entry> {
    if vs == [] then []
    else if vs[0].expiresAt <= now then Fresh(vs[1..], now)
    else [vs[0]] + Fresh(vs[1..], now)
  }

  ghost function Dropped(vs: seq<Entry>, now: nat): nat {
    if vs == [] then 0
    else (if vs[0].expiresAt <= now then EntryBytes(vs[0]) else 0) + Dropped(vs[1..], now)
  }

  /** The first variant whose own Vary list gives this request its signature. */
  ghost function FirstMatch(vs: seq<Entry>, req: Headers): Option<Entry> {
    if vs == [] then None
    else if Signature(req, vs[0].varyHeaders) == vs[0].varySignature then Some(vs[0])
    else FirstMatch(vs[1..], req)
  }

  function Variants(m: Table, key: string): seq<Entry> {
    if key in m then m[key] else []
  }

  function SetOrDrop(m: Table, k: string, vs: seq<Entry>): Table {
    if vs == [] then m - {k} else m[k := vs]
  }

  ghost function Hit(s: State, key: string, req: Headers, now: nat): Option<Entry> {
    FirstMatch(Fresh(Variants(s.entries, key), now), req)
  }

  ghost function AfterGet(s: State, key: string, now: nat): State {
    var vs := Variants(s.entries, key);
    State(SetOrDrop(s.entries, key, Fresh(vs, now)), SaturatingSub(s.totalBytes, Dropped(vs, now)))
  }

  // ----- One insertion -----

  /** The list with its first variant under a signature taken out. */
  ghost function Without(vs: seq<Entry>, sig: string): seq<Entry> {
    if vs == [] then []
    else if vs[0].varySignature == sig then vs[1..]
    else [vs[0]] + Without(vs[1..], sig)
  }

  ghost function BytesAt(vs: seq<Entry>, sig: string): nat {
    if vs == [] then 0
    else if vs[0].varySignature == sig then EntryBytes(vs[0])
    else BytesAt(vs[1..], sig)
  }

  ghost function Evict(s: State, v: Victim): State {
    var vs := Variants(s.entries, v.key);
    State(SetOrDrop(s.entries, v.key, Without(vs, v.entry.varySignature)),
          SaturatingSub(s.totalBytes, BytesAt(vs, v.entry.varySignature)))
  }

  ghost function Insert(s: State, key: string, entry: Entry): State {
    var vs := Variants(s.entries, key);
    State(s.entries[key := Without(vs, entry.varySignature) + [entry]],
          SaturatingSub(s.totalBytes, BytesAt(vs, entry.varySignature)) + EntryBytes(entry))
  }

  ghost predicate Holds(m: Table, key: string, e: Entry) {
    e in Variants(m, key)
  }

  /** `v` is stored and nothing stored expires before it. */
  ghost predicate Soonest(m: Table, v: Victim) {
    && Holds(m, v.key, v.entry)
    && forall k, e | Holds(m, k, e) :: v.entry.expiresAt <= e.expiresAt
  }

  /** `t` is reached from `s` by evicting `victims` in order; each was the soonest to expire
      when it was taken, and there was then still no room for `size` bytes. */
  ghost predicate Evicts(s: State, victims: seq<Victim>, size: nat, max: nat, t: State)
    decreases victims
  {
    if victims == [] then s == t
    else
      && s.totalBytes + size > max
      && Soonest(s.entries, victims[0])
      && Evicts(Evict(s, victims[0]), victims[1..], size, max, t)
  }

  /** What `put` does to the store; `mid` is the store once room has been made. */
  ghost predicate Puts(s: State, key: string, entry: Entry, max: nat,
                       victims: seq<Victim>, mid: State, s': State)
  {
    if EntryBytes(entry) > max then s' == mid == s && victims == []
    else
      && Evicts(s, victims, EntryBytes(entry), max, mid)
      && mid.totalBytes + EntryBytes(entry) <= max
      && s' == Insert(mid, key, entry)
  }

  // ----- The store's invariant -----

  ghost predicate DistinctSignatures(vs: seq<Entry>) {
    forall i, j | 0 <= i < j < |vs| :: vs[i].varySignature != vs[j].varySignature
  }

  ghost predicate WellFormed(m: Table) {
    forall k | k in m :: m[k] != [] && DistinctSignatures(m[k])
  }

  /** The byte counter is the exact weight of the table and within budget; no key has an
      empty list; signatures are distinct under each key. */
  ghost predicate Inv(s: State, max: nat) {
    && WellFormed(s.entries)
    && s.totalBytes == SumTable(s.entries, EntryBytes)
    && s.totalBytes <= max
  }

  lemma {:induction false} FreshSum(vs: seq<Entry>, now: nat)
    ensures SumList(vs, EntryBytes) == SumList(Fresh(vs, now), EntryBytes) + Dropped(vs, now)
  {
    if vs != [] {
      FreshSum(vs[1..], now);
      assert vs[0].expiresAt > now ==> Fresh(vs, now)[1..] == Fresh(vs[1..], now);
    }
  }

  lemma {:induction false} FreshMember(vs: seq<Entry>, now: nat, e: Entry)
    ensures e in Fresh(vs, now) <==> e in vs && e.expiresAt > now
  {
    if vs != [] {
      FreshMember(vs[1..], now, e);
    }
  }

  lemma {:induction false} FreshDistinct(vs: seq<Entry>, now: nat)
    requires DistinctSignatures(vs)
    ensures DistinctSignatures(Fresh(vs, now))
  {
    if vs != [] {
      FreshDistinct(vs[1..], now);
      var rest := Fresh(vs[1..], now);
      forall i | 0 <= i < |rest| ensures rest[i].varySignature != vs[0].varySignature {
        FreshMember(vs[1..], now, rest[i]);
      }
    }
  }

  lemma {:induction false} WithoutMember(vs: seq<Entry>, sig: string, e: Entry)
    requires DistinctSignatures(vs)
    ensures e in Without(vs, sig) <==> e in vs && e.varySignature != sig
  {
    if vs != [] {
      WithoutMember(vs[1..], sig, e);
    }
  }

  lemma {:induction false} WithoutDistinct(vs: seq<Entry>, sig: string)
    requires DistinctSignatures(vs)
    ensures DistinctSignatures(Without(vs, sig))
  {
    if vs != [] {
      WithoutDistinct(vs[1..], sig);
      var rest := Without(vs[1..], sig);
      forall i | 0 <= i < |rest| ensures rest[i].varySignature != vs[0].varySignature {
        WithoutMember(vs[1..], sig, rest[i]);
      }
    }
  }

  lemma {:induction false} WithoutSum(vs: seq<Entry>, sig: string)
    ensures SumList(vs, EntryBytes) == SumList(Without(vs, sig), EntryBytes) + BytesAt(vs, sig)
  {
    if vs != [] && vs[0].varySignature != sig {
      WithoutSum(vs[1..], sig);
      assert Without(vs, sig)[1..] == Without(vs[1..], sig);
    }
  }

  lemma {:induction false} WithoutCount(vs: seq<Entry>, e: Entry)
    requires e in vs
    ensures SumList(Without(vs, e.varySignature), One) == SumList(vs, One) - 1
  {
    if vs[0].varySignature != e.varySignature {
      WithoutCount(vs[1..], e);
      assert Without(vs, e.varySignature)[1..] == Without(vs[1..], e.varySignature);
    }
  }

  lemma {:induction false} BytesOf(vs: seq<Entry>, e: Entry)
    requires DistinctSignatures(vs) && e in vs
    ensures BytesAt(vs, e.varySignature) == EntryBytes(e)
  {
    if vs[0] != e {
      BytesOf(vs[1..], e);
    }
  }

  lemma {:induction false} SumSnoc(vs: seq<Entry>, e: Entry, f: Entry -> nat)
    ensures SumList(vs + [e], f) == SumList(vs, f) + f(e)
  {
    if vs == [] {
      assert (vs + [e])[1..] == [];
    } else {
      SumSnoc(vs[1..], e, f);
      assert (vs + [e])[1..] == vs[1..] + [e];
    }
  }

  // ----- Every operation keeps the invariant; no subtraction clamps -----

  lemma GetKeepsInv(s: State, key: string, now: nat, max: nat)
    requires Inv(s, max)
    ensures Inv(AfterGet(s, key, now), max)
    ensures AfterGet(s, key, now).totalBytes + Dropped(Variants(s.entries, key), now) == s.totalBytes
  {
    var vs := Variants(s.entries, key);
    FreshSum(vs, now);
    FreshDistinct(vs, now);
    SumTableSet(s.entries, key, Fresh(vs, now), EntryBytes);
  }

  /** A lookup takes away exactly the expired variants of its own key. */
  lemma GetHolds(s: State, key: string, now: nat, k: string, e: Entry)
    ensures Holds(AfterGet(s, key, now).entries, k, e)
       <==> Holds(s.entries, k, e) && (k == key ==> e.expiresAt > now)
  {
    FreshMember(Variants(s.entries, key), now, e);
  }

  lemma EvictKeepsInv(s: State, v: Victim, max: nat)
    requires Inv(s, max) && Holds(s.entries, v.key, v.entry)
    ensures Inv(Evict(s, v), max)
    ensures Evict(s, v).totalBytes + EntryBytes(v.entry) == s.totalBytes
  {
    var vs, sig := s.entries[v.key], v.entry.varySignature;
    WithoutSum(vs, sig);
    WithoutDistinct(vs, sig);
    BytesOf(vs, v.entry);
    SumTableSet(s.entries, v.key, Without(vs, sig), EntryBytes);
  }

  lemma EvictHolds(s: State, v: Victim, k: string, e: Entry)
    requires WellFormed(s.entries)
    ensures WellFormed(Evict(s, v).entries)
    ensures Holds(Evict(s, v).entries, k, e)
       <==> Holds(s.entries, k, e) && !(k == v.key && e.varySignature == v.entry.varySignature)
  {
    WithoutMember(Variants(s.entries, v.key), v.entry.varySignature, e);
    WithoutDistinct(Variants(s.entries, v.key), v.entry.varySignature);
  }

  lemma InsertKeepsInv(s: State, key: string, entry: Entry, max: nat)
    requires Inv(s, max) && s.totalBytes + EntryBytes(entry) <= max
    ensures Inv(Insert(s, key, entry), max)
    ensures Insert(s, key, entry).totalBytes + BytesAt(Variants(s.entries, key), entry.varySignature)
         == s.totalBytes + EntryBytes(entry)
  {
    var vs := Variants(s.entries, key);
    var rest := Without(vs, entry.varySignature);
    WithoutSum(vs, entry.varySignature);
    SumSnoc(rest, entry, EntryBytes);
    InsertDistinct(vs, entry);
    assert SetOrDrop(s.entries, key, rest + [entry]) == s.entries[key := rest + [entry]];
    SumTableSet(s.entries, key, rest + [entry], EntryBytes);
    SumTableSet(s.entries, key, rest, EntryBytes);
  }

  lemma InsertDistinct(vs: seq<Entry>, entry: Entry)
    requires DistinctSignatures(vs)
    ensures DistinctSignatures(Without(vs, entry.varySignature) + [entry])
  {
    var rest := Without(vs, entry.varySignature);
    WithoutDistinct(vs, entry.varySignature);
    forall i | 0 <= i < |rest| ensures rest[i].varySignature != entry.varySignature {
      WithoutMember(vs, entry.varySignature, rest[i]);
    }
  }

  lemma InsertHolds(s: State, key: string, entry: Entry, k: string, e: Entry)
    requires WellFormed(s.entries)
    ensures Holds(Insert(s, key, entry).entries, k, e)
       <==> if k == key && e.varySignature == entry.varySignature then e == entry
            else Holds(s.entries, k, e)
  {
    WithoutMember(Variants(s.entries, key), entry.varySignature, e);
  }

  // ----- Eviction as a whole -----

  ghost function VictimBytes(victims: seq<Victim>): nat {
    if victims == [] then 0 else EntryBytes(victims[0].entry) + VictimBytes(victims[1..])
  }

  /** Some victim was filed under this key and signature. */
  ghost predicate Taken(victims: seq<Victim>, key: string, sig: string) {
    && victims != []
    && (|| (victims[0].key == key && victims[0].entry.varySignature == sig)
        || Taken(victims[1..], key, sig))
  }

  /** Room is made exactly by the victims: what they weighed is what the counter lost. */
  lemma {:induction false} EvictionKeepsInv(s: State, victims: seq<Victim>, size: nat, max: nat, t: State)
    requires Inv(s, max) && Evicts(s, victims, size, max, t)
    ensures Inv(t, max)
    ensures t.totalBytes + VictimBytes(victims) == s.totalBytes
    decreases victims
  {
    if victims != [] {
      EvictKeepsInv(s, victims[0], max);
      EvictionKeepsInv(Evict(s, victims[0]), victims[1..], size, max, t);
    }
  }

  /** Eviction removes exactly what is filed where its victims were filed. */
  lemma {:induction false} EvictionHolds(s: State, victims: seq<Victim>, size: nat, max: nat, t: State,
                                         k: string, e: Entry)
    requires WellFormed(s.entries) && Evicts(s, victims, size, max, t)
    ensures WellFormed(t.entries)
    ensures Holds(t.entries, k, e) <==> Holds(s.entries, k, e) && !Taken(victims, k, e.varySignature)
    decreases victims
  {
    if victims != [] {
      EvictHolds(s, victims[0], k, e);
      EvictionHolds(Evict(s, victims[0]), victims[1..], size, max, t, k, e);
    }
  }

  /** Every victim was in the store when the insertion began. */
  lemma {:induction false} VictimStored(s: State, victims: seq<Victim>, size: nat, max: nat, t: State, i: nat)
    requires WellFormed(s.entries) && Evicts(s, victims, size, max, t) && i < |victims|
    ensures Holds(s.entries, victims[i].key, victims[i].entry)
    decreases victims
  {
    if i > 0 {
      EvictHolds(s, victims[0], victims[i].key, victims[i].entry);
      VictimStored(Evict(s, victims[0]), victims[1..], size, max, t, i - 1);
    }
  }

  lemma SoonestFirst(m: Table, v: Victim, k: string, e: Entry)
    requires Soonest(m, v) && Holds(m, k, e)
    ensures v.entry.expiresAt <= e.expiresAt
  {
  }

  /** The table from which victim `i` was taken still held victim `j`. */
  lemma {:induction false} TableAtEviction(s: State, victims: seq<Victim>, size: nat, max: nat, t: State,
                                           i: nat, j: nat) returns (m: Table)
    requires WellFormed(s.entries) && Evicts(s, victims, size, max, t) && i <= j < |victims|
    ensures Soonest(m, victims[i]) && Holds(m, victims[j].key, victims[j].entry)
    decreases i
  {
    if i == 0 {
      m := s.entries;
      VictimStored(s, victims, size, max, t, j);
    } else {
      EvictHolds(s, victims[0], victims[0].key, victims[0].entry);
      m := TableAtEviction(Evict(s, victims[0]), victims[1..], size, max, t, i - 1, j - 1);
    }
  }

  /** Evicted entries leave in nondecreasing order of expiry. */
  lemma EvictionOrder(s: State, victims: seq<Victim>, size: nat, max: nat, t: State, i: nat, j: nat)
    requires WellFormed(s.entries) && Evicts(s, victims, size, max, t) && i < j < |victims|
    ensures victims[i].entry.expiresAt <= victims[j].entry.expiresAt
  {
    var m := TableAtEviction(s, victims, size, max, t, i, j);
    SoonestFirst(m, victims[i], victims[j].key, victims[j].entry);
  }

  /** No entry that survives an eviction expires before one that was evicted. */
  lemma {:induction false} SurvivorsExpireLater(s: State, victims: seq<Victim>, size: nat, max: nat, t: State,
                                                i: nat, k: string, e: Entry)
    requires WellFormed(s.entries) && Evicts(s, victims, size, max, t) && i < |victims|
    requires Holds(t.entries, k, e)
    ensures victims[i].entry.expiresAt <= e.expiresAt
    decreases victims
  {
    if i == 0 {
      EvictionHolds(s, victims, size, max, t, k, e);
    } else {
      EvictHolds(s, victims[0], k, e);
      SurvivorsExpireLater(Evict(s, victims[0]), victims[1..], size, max, t, i - 1, k, e);
    }
  }

  lemma BytesButLast(victims: seq<Victim>)
    requires |victims| > 1
    ensures var rest := victims[1..];
            VictimBytes(victims[..|victims| - 1]) == EntryBytes(victims[0].entry) + VictimBytes(rest[..|rest| - 1])
  {
    assert victims[..|victims| - 1][1..] == victims[1..][..|victims[1..]| - 1];
  }

  /** Without the last victim the new entry would not have fitted. */
  lemma {:induction false} EvictionNeeded(s: State, victims: seq<Victim>, size: nat, max: nat, t: State)
    requires Inv(s, max) && Evicts(s, victims, size, max, t) && victims != []
    ensures s.totalBytes - VictimBytes(victims[..|victims| - 1]) + size > max
    decreases victims
  {
    if |victims| > 1 {
      EvictKeepsInv(s, victims[0], max);
      EvictionNeeded(Evict(s, victims[0]), victims[1..], size, max, t);
      BytesButLast(victims);
    } else {
      assert victims[..0] == [];
    }
  }

  lemma {:induction false} EvictionExtends(s: State, victims: seq<Victim>, size: nat, max: nat,
                                           t: State, v: Victim)
    requires Evicts(s, victims, size, max, t)
    requires t.totalBytes + size > max && Soonest(t.entries, v)
    ensures Evicts(s, victims + [v], size, max, Evict(t, v))
    decreases victims
  {
    if victims == [] {
      assert (victims + [v])[1..] == [];
    } else {
      EvictionExtends(Evict(s, victims[0]), victims[1..], size, max, t, v);
      assert (victims + [v])[1..] == victims[1..] + [v];
    }
  }

  lemma PutKeepsInv(s: State, key: string, entry: Entry, max: nat,
                    victims: seq<Victim>, mid: State, s': State)
    requires Inv(s, max) && Puts(s, key, entry, max, victims, mid, s')
    ensures Inv(mid, max) && Inv(s', max)
  {
    if EntryBytes(entry) <= max {
      EvictionKeepsInv(s, victims, EntryBytes(entry), max, mid);
      InsertKeepsInv(mid, key, entry, max);
    }
  }

  /** What is stored after `put`: an admissible entry replaces its namesake and the victims
      are gone; an entry larger than the whole budget changes nothing. */
  lemma PutHolds(s: State, key: string, entry: Entry, max: nat, victims: seq<Victim>, mid: State,
                 s': State, k: string, e: Entry)
    requires Inv(s, max) && Puts(s, key, entry, max, victims, mid, s')
    ensures Holds(s'.entries, k, e)
       <==> if EntryBytes(entry) <= max && k == key && e.varySignature == entry.varySignature
            then e == entry
            else Holds(s.entries, k, e) && !Taken(victims, k, e.varySignature)
  {
    if EntryBytes(entry) <= max {
      EvictionHolds(s, victims, EntryBytes(entry), max, mid, k, e);
      InsertHolds(mid, key, entry, k, e);
    }
  }

  /** In a table with distinct signatures, an entry is determined by key and signature. */
  lemma SameSignatureSameEntry(m: Table, key: string, a: Entry, b: Entry)
    requires WellFormed(m) && Holds(m, key, a) && Holds(m, key, b)
    requires a.varySignature == b.varySignature
    ensures a == b
  {
    var vs := m[key];
    var i :| 0 <= i < |vs| && vs[i] == a;
    var j :| 0 <= j < |vs| && vs[j] == b;
    assert i == j;
  }

  // ----- The order of variants -----

  /** One variant stands before another. */
  ghost predicate Precedes(vs: seq<Entry>, x: Entry, y: Entry) {
    vs != [] && ((vs[0] == x && y in vs[1..]) || Precedes(vs[1..], x, y))
  }

  lemma {:induction false} PrecedesDistinct(vs: seq<Entry>, x: Entry, y: Entry)
    requires DistinctSignatures(vs) && Precedes(vs, x, y)
    ensures x in vs && y in vs && x.varySignature != y.varySignature
  {
    if !(vs[0] == x && y in vs[1..]) {
      PrecedesDistinct(vs[1..], x, y);
    }
  }

  lemma {:induction false} FreshPrecedes(vs: seq<Entry>, now: nat, x: Entry, y: Entry)
    requires Precedes(Fresh(vs, now), x, y)
    ensures Precedes(vs, x, y)
  {
    var rest := Fresh(vs[1..], now);
    if vs[0].expiresAt > now {
      assert Fresh(vs, now)[1..] == rest;
    }
    FreshMember(vs[1..], now, y);
    if Precedes(rest, x, y) {
      FreshPrecedes(vs[1..], now, x, y);
    }
  }

  lemma {:induction false} WithoutPrecedes(vs: seq<Entry>, sig: string, x: Entry, y: Entry)
    requires DistinctSignatures(vs) && Precedes(Without(vs, sig), x, y)
    ensures Precedes(vs, x, y)
  {
    if vs[0].varySignature != sig {
      var rest := Without(vs[1..], sig);
      assert Without(vs, sig)[1..] == rest;
      WithoutMember(vs[1..], sig, y);
      if Precedes(rest, x, y) {
        WithoutPrecedes(vs[1..], sig, x, y);
      }
    }
  }

  lemma {:induction false} SnocPrecedes(vs: seq<Entry>, e: Entry, x: Entry, y: Entry)
    requires Precedes(vs + [e], x, y)
    ensures y == e || Precedes(vs, x, y)
  {
    if vs != [] {
      assert (vs + [e])[1..] == vs[1..] + [e];
      if Precedes(vs[1..] + [e], x, y) {
        SnocPrecedes(vs[1..], e, x, y);
      }
    }
  }

  lemma {:induction false} EvictionPrecedes(s: State, victims: seq<Victim>, size: nat, max: nat, t: State,
                                            k: string, x: Entry, y: Entry)
    requires WellFormed(s.entries) && Evicts(s, victims, size, max, t)
    requires Precedes(Variants(t.entries, k), x, y)
    ensures Precedes(Variants(s.entries, k), x, y)
    decreases victims
  {
    if victims != [] {
      var v := victims[0];
      EvictHolds(s, v, k, x);
      EvictionPrecedes(Evict(s, v), victims[1..], size, max, t, k, x, y);
      if k == v.key {
        WithoutPrecedes(Variants(s.entries, k), v.entry.varySignature, x, y);
      }
    }
  }

  /** A lookup leaves the variants of every key in their order. */
  lemma GetPrecedes(s: State, key: string, now: nat, k: string, x: Entry, y: Entry)
    requires Precedes(Variants(AfterGet(s, key, now).entries, k), x, y)
    ensures Precedes(Variants(s.entries, k), x, y)
  {
    if k == key {
      FreshPrecedes(Variants(s.entries, key), now, x, y);
    }
  }

  /** An insertion leaves them in their order and puts the new entry behind them. */
  lemma PutPrecedes(s: State, key: string, entry: Entry, max: nat, victims: seq<Victim>, mid: State,
                    s': State, k: string, x: Entry, y: Entry)
    requires Inv(s, max) && Puts(s, key, entry, max, victims, mid, s')
    requires Precedes(Variants(s'.entries, k), x, y)
    ensures if EntryBytes(entry) <= max && k == key
            then y == entry || (x != entry && Precedes(Variants(s.entries, k), x, y))
            else Precedes(Variants(s.entries, k), x, y)
  {
    if EntryBytes(entry) <= max {
      EvictionKeepsInv(s, victims, EntryBytes(entry), max, mid);
      if k != key {
        EvictionPrecedes(s, victims, EntryBytes(entry), max, mid, k, x, y);
      } else if y != entry {
        var vs := Variants(mid.entries, key);
        SnocPrecedes(Without(vs, entry.varySignature), entry, x, y);
        WithoutDistinct(vs, entry.varySignature);
        PrecedesDistinct(Without(vs, entry.varySignature), x, y);
        WithoutMember(vs, entry.varySignature, x);
        WithoutPrecedes(vs, entry.varySignature, x, y);
        EvictionPrecedes(s, victims, EntryBytes(entry), max, mid, k, x, y);
      }
    }
  }

  // ----- The store itself -----

  /** Index of the first variant filed under a signature, or the length of the list. */
  function Position(vs: seq<Entry>, sig: string): (p: nat)
    ensures p <= |vs|
    ensures p < |vs| ==> vs[p].varySignature == sig
    ensures forall i | 0 <= i < p :: vs[i].varySignature != sig
  {
    if vs == [] || vs[0].varySignature == sig then 0 else 1 + Position(vs[1..], sig)
  }

  /** The shape that `remove(position(..))` takes in `put`, and the bytes it gives back. */
  lemma {:induction false} WithoutAtPosition(vs: seq<Entry>, sig: string)
    ensures var p := Position(vs, sig);
            && (p < |vs| ==> Without(vs, sig) == vs[..p] + vs[p + 1..] && BytesAt(vs, sig) == EntryBytes(vs[p]))
            && (p == |vs| ==> Without(vs, sig) == vs && BytesAt(vs, sig) == 0)
  {
    if vs != [] && vs[0].varySignature != sig {
      WithoutAtPosition(vs[1..], sig);
      var q := Position(vs[1..], sig);
      if q < |vs[1..]| {
        assert [vs[0]] + (vs[1..][..q] + vs[1..][q + 1..]) == vs[..q + 1] + vs[q + 2..];
      } else {
        assert [vs[0]] + vs[1..] == vs;
      }
    }
  }

  /** `remove(position(..))`: the list without its first variant under a signature, and the bytes
      that gives back. */
  method TakeOut(vs: seq<Entry>, sig: string) returns (rest: seq<Entry>, bytes: nat)
    ensures rest == Without(vs, sig) && bytes == BytesAt(vs, sig)
  {
    WithoutAtPosition(vs, sig);
    var pos := Position(vs, sig);
    rest, bytes := vs, 0;
    if pos < |vs| {
      bytes := EntryBytes(vs[pos]);
      rest := vs[..pos] + vs[pos + 1..];
    }
  }

  /** The `retain` pass of `get`, which also adds up the bytes it drops. */
  method Retain(variants: seq<Entry>, now: nat) returns (kept: seq<Entry>, bytesDropped: nat)
    ensures kept == Fresh(variants, now)
    ensures bytesDropped == Dropped(variants, now)
  {
    kept, bytesDropped := [], 0;
    for i := 0 to |variants|
      invariant Fresh(variants, now) == kept + Fresh(variants[i..], now)
      invariant Dropped(variants, now) == bytesDropped + Dropped(variants[i..], now)
    {
      assert variants[i..][1..] == variants[i + 1..];
      if variants[i].expiresAt <= now {
        bytesDropped := bytesDropped + EntryBytes(variants[i]);
      } else {
        kept := kept + [variants[i]];
      }
    }
  }

  /** The scan of `get` for the first variant that matches the request. */
  method FindMatch(variants: seq<Entry>, req: Headers) returns (found: Option<Entry>)
    ensures found == FirstMatch(variants, req)
  {
    for i := 0 to |variants|
      invariant FirstMatch(variants, req) == FirstMatch(variants[i..], req)
    {
      var sig := BuildSignature(req, variants[i].varyHeaders);
      if sig == variants[i].varySignature {
        return Some(variants[i]);
      }
    }
    return None;
  }

  /** The two nested scans of `put` that pick the soonest-to-expire entry; the hash map may be
      walked in any order. */
  method FindSoonest(m: Table) returns (best: Option<Victim>)
    ensures best.Some? ==> Soonest(m, best.value)
    ensures best.None? ==> forall k | k in m :: m[k] == []
  {
    best := None;
    var keys := m.Keys;
    while keys != {}
      invariant keys <= m.Keys
      invariant best.None? ==> forall k | k in m.Keys - keys :: m[k] == []
      invariant best.Some? ==> Holds(m, best.value.key, best.value.entry)
      invariant best.Some? ==>
        forall k, e | k in m.Keys - keys && e in m[k] :: best.value.entry.expiresAt <= e.expiresAt
      decreases |keys|
    {
      var k :| k in keys;
      var vs := m[k];
      for i := 0 to |vs|
        invariant best.None? ==> i == 0 && forall k' | k' in m.Keys - keys :: m[k'] == []
        invariant best.Some? ==> Holds(m, best.value.key, best.value.entry)
        invariant best.Some? ==>
          forall k', e | k' in m.Keys - keys && e in m[k'] :: best.value.entry.expiresAt <= e.expiresAt
        invariant best.Some? ==> forall j | 0 <= j < i :: best.value.entry.expiresAt <= vs[j].expiresAt
      {
        if best.None? || best.value.entry.expiresAt > vs[i].expiresAt {
          best := Some(Victim(k, vs[i]));
        }
      }
      keys := keys - {k};
    }
  }

  lemma SweptTable(m: Table, key: string, kept: seq<Entry>)
    ensures key !in m ==> SetOrDrop(m, key, []) == m
    ensures SetOrDrop(m, key, kept) == if kept == [] then m[key := kept] - {key} else m[key := kept]
  {
  }

  class CacheStore {
    const maxBytes: nat
    var entries: Table
    var totalBytes: nat

    ghost function Snapshot(): State
      reads this
    {
      State(entries, totalBytes)
    }

    ghost predicate Valid()
      reads this
    {
      Inv(Snapshot(), maxBytes)
    }

    constructor (maxBytes: nat)
      ensures Valid() && Snapshot() == State(map[], 0) && this.maxBytes == maxBytes
    {
      this.maxBytes := maxBytes;
      entries, totalBytes := map[], 0;
    }

    /** What other requests did to the store in the meantime. */
    method Interfere(other: State)
      requires Inv(other, maxBytes)
      modifies this
      ensures Valid() && Snapshot() == other
    {
      entries, totalBytes := other.entries, other.totalBytes;
    }

    method Get(key: string, req: Headers, now: nat) returns (found: Option<Entry>)
      requires Valid()
      modifies this
      ensures Valid()
      ensures found == Hit(old(Snapshot()), key, req, now)
      ensures Snapshot() == AfterGet(old(Snapshot()), key, now)
    {
      GetKeepsInv(Snapshot(), key, now, maxBytes);
      found := None;
      var bytesDropped, removeKey := 0, false;
      if key in entries {
        var kept;
        kept, bytesDropped := Retain(entries[key], now);
        entries := entries[key := kept];
        found := FindMatch(kept, req);
        removeKey := kept == [];
      }
      if bytesDropped > 0 {
        totalBytes := SaturatingSub(totalBytes, bytesDropped);
      }
      if removeKey {
        entries := entries - {key};
      }
      SweptTable(old(entries), key, Fresh(Variants(old(entries), key), now));
    }

    /** Take out the first variant filed under the victim's key and signature. */
    method Remove(v: Victim)
      requires v.key in entries
      modifies this
      ensures Snapshot() == Evict(old(Snapshot()), v)
    {
      var vs, bytesRemoved := TakeOut(entries[v.key], v.entry.varySignature);
      entries := entries[v.key := vs];
      if bytesRemoved > 0 {
        totalBytes := SaturatingSub(totalBytes, bytesRemoved);
      }
      if vs == [] {
        entries := entries - {v.key};
      }
      assert entries == SetOrDrop(old(entries), v.key, vs);
    }

    /** The eviction loop of `put`.  It ends even when every victim weighs 0 bytes, and the
        `None => break` arm is never taken. */
    method MakeRoom(size: nat) returns (ghost victims: seq<Victim>)
      requires Valid() && size <= maxBytes
      modifies this
      ensures Valid() && totalBytes + size <= maxBytes
      ensures Evicts(old(Snapshot()), victims, size, maxBytes, Snapshot())
    {
      victims := [];
      while totalBytes + size > maxBytes
        invariant Valid()
        invariant Evicts(old(Snapshot()), victims, size, maxBytes, Snapshot())
        decreases SumTable(entries, One)
      {
        var target := FindSoonest(entries);
        assert target.Some? by { NonEmptyTable(Snapshot(), maxBytes); }
        if target.None? {
          break;
        }
        EvictKeepsInv(Snapshot(), target.value, maxBytes);
        EvictShrinks(Snapshot(), target.value);
        EvictionExtends(old(Snapshot()), victims, size, maxBytes, Snapshot(), target.value);
        victims := victims + [target.value];
        Remove(target.value);
      }
    }

    /** File an entry at the end of its key's list, in place of any variant with its signature. */
    method File(key: string, entry: Entry)
      modifies this
      ensures Snapshot() == Insert(old(Snapshot()), key, entry)
    {
      var variants, replaced := TakeOut(Variants(entries, key), entry.varySignature);
      variants := variants + [entry];
      entries := entries[key := variants];
      totalBytes := SaturatingSub(totalBytes, replaced);
      totalBytes := totalBytes + EntryBytes(entry);
    }

    method Put(key: string, entry: Entry) returns (ghost victims: seq<Victim>, ghost mid: State)
      requires Valid()
      modifies this
      ensures Valid()
      ensures Puts(old(Snapshot()), key, entry, maxBytes, victims, mid, Snapshot())
    {
      victims, mid := [], Snapshot();
      var size := EntryBytes(entry);
      if size > maxBytes {
        return;
      }
      victims := MakeRoom(size);
      mid := Snapshot();
      InsertKeepsInv(mid, key, entry, maxBytes);
      File(key, entry);
    }
  }

  /** A store with bytes in it holds an entry. */
  lemma NonEmptyTable(s: State, max: nat)
    requires Inv(s, max) && s.totalBytes > 0
    ensures exists k :: k in s.entries && s.entries[k] != []
  {
    assert s.entries != map[];
    var k := PickKey(s.entries);
    assert s.entries[k] != [];
  }

  /** Each eviction removes one entry, whatever it weighs. */
  lemma EvictShrinks(s: State, v: Victim)
    requires Holds(s.entries, v.key, v.entry)
    ensures SumTable(Evict(s, v).entries, One) == SumTable(s.entries, One) - 1
  {
    var vs := s.entries[v.key];
    WithoutCount(vs, v.entry);
    SumTableSet(s.entries, v.key, Without(vs, v.entry.varySignature), One);
  }
}
