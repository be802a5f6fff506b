/** One shard of the block cache (util/cache.cc): a hash table of entries that
    are also on one of two lists, with reference counts. */
module LruCaches {
  import opened Keys
  import opened HandleTables

  ghost function Charges(nodes: seq<LRUHandle>): nat {
    if nodes == [] then 0 else nodes[0].charge + Charges(nodes[1..])
  }

  ghost function Without(nodes: seq<LRUHandle>, k: nat): seq<LRUHandle>
    requires k < |nodes|
  {
    nodes[..k] + nodes[k + 1..]
  }

  lemma {:induction false} ChargesWithout(nodes: seq<LRUHandle>, k: nat)
    requires k < |nodes|
    ensures Charges(nodes) == Charges(Without(nodes, k)) + nodes[k].charge
  {
    if k > 0 {
      ChargesWithout(nodes[1..], k - 1);
      assert Without(nodes, k)[1..] == Without(nodes[1..], k - 1);
    } else {
      assert Without(nodes, 0) == nodes[1..];
    }
  }

  lemma {:induction false} ChargesAppended(nodes: seq<LRUHandle>, e: LRUHandle)
    ensures Charges(nodes + [e]) == Charges(nodes) + e.charge
  {
    if nodes == [] {
      assert Charges([e]) == e.charge + Charges([]);
    } else {
      ChargesAppended(nodes[1..], e);
      assert (nodes + [e])[1..] == nodes[1..] + [e];
    }
  }

  lemma WithoutMembers(nodes: seq<LRUHandle>, k: nat)
    requires Distinct(nodes) && k < |nodes|
    ensures forall x :: x in Without(nodes, k) <==> x in nodes && x != nodes[k]
  {
    var rest := Without(nodes, k);
    forall x | x in nodes && x != nodes[k] ensures x in rest {
      var i :| 0 <= i < |nodes| && nodes[i] == x;
      assert rest[if i < k then i else i - 1] == x;
    }
    forall i | 0 <= i < |rest| ensures rest[i] in nodes && rest[i] != nodes[k] {
      assert rest[i] == nodes[if i < k then i else i + 1];
    }
  }

  /** What a list is after an entry that may be on it has gone. */
  ghost predicate Lost(before: seq<LRUHandle>, e: LRUHandle, after: seq<LRUHandle>) {
    if e in before then exists k | 0 <= k < |before| :: before[k] == e && after == Without(before, k)
    else after == before
  }

  /** How many of the oldest idle entries go until the rest fits. */
  ghost function Victims(idle: seq<LRUHandle>, held: nat, capacity: nat): (m: nat)
    ensures m <= |idle|
    ensures m == |idle| || Charges(idle[m..]) + held <= capacity
  {
    if idle == [] || Charges(idle) + held <= capacity then 0
    else 1 + Victims(idle[1..], held, capacity)
  }

  /** No entry goes without need. */
  lemma {:induction false} VictimsNeeded(idle: seq<LRUHandle>, held: nat, capacity: nat)
    ensures var m := Victims(idle, held, capacity); m > 0 ==> Charges(idle[m - 1..]) + held > capacity
  {
    hide Charges;
    var m := Victims(idle, held, capacity);
    if m == 1 {
      assert idle[0..] == idle;
    } else if m > 1 {
      VictimsNeeded(idle[1..], held, capacity);
      assert idle[1..][m - 2..] == idle[m - 1..];
    }
  }

  class LRUCache {
    var capacity: nat
    var usage: nat
    const lru: LRUHandle    // dummy head; next is the oldest entry
    const inUse: LRUHandle  // dummy head
    const table: HandleTable
    ghost var idle: seq<LRUHandle>          // the entries of `lru`
    ghost var busy: seq<LRUHandle>          // the entries of `inUse`
    ghost var all: set<LRUHandle>           // every entry ever made
    ghost var pins: multiset<LRUHandle>     // the handles that clients hold
    ghost var deleted: seq<LRUHandle>       // the calls of deleters so far

    /** The two lists are well-formed and disjoint. */
    ghost predicate ListsOk()
      reads `idle, `busy, `all, lru`next, lru`prev, inUse`next, inUse`prev, idle`next, idle`prev, busy`next, busy`prev
    {
      && lru != inUse && lru !in all && inUse !in all
      && IsRing(lru, idle) && IsRing(inUse, busy)
      && (forall x <- idle :: x !in busy && x in all) && (forall x <- busy :: x in all)
    }

    /** The entries in the cache are those of the table, but for one just taken
        out of it, and those of the lists. */
    ghost predicate MembersOk(loose: LRUHandle?)
      reads `all, `idle, `busy, table`nodes, all`inCache
    {
      && table.nodes <= all && (loose != null ==> loose in all && loose !in table.nodes)
      && (forall x <- all :: x.inCache <==> x in table.nodes || x == loose)
      && (forall x <- all :: x.inCache <==> x in idle || x in busy)
    }

    /** The reference counts are right, but for one about to be counted down. */
    ghost predicate RefsOk(debt: LRUHandle?)
      reads `all, `pins, all`inCache, all`refs
    {
      && (debt != null ==> debt in all) && (forall x <- pins :: x in all)
      && forall x <- all :: x.refs == pins[x] + (if x.inCache then 1 else 0) + (if x == debt then 1 else 0)
    }

    /** An entry is on the list of evictable ones if only the cache refers to it. */
    ghost predicate IdleOk(except: LRUHandle?)
      reads `all, `idle, all`inCache, all`refs
    {
      forall x <- all | x.inCache && x != except :: x in idle <==> x.refs == 1
    }

    /** Exactly the entries without references have been deleted, once each. */
    ghost predicate DeletedOk()
      reads `all, `deleted, all`refs
    {
      && Distinct(deleted) && (forall x <- deleted :: x in all)
      && forall x <- all :: x.refs == 0 <==> x in deleted
    }

    ghost predicate UsageOk()
      reads `usage, `idle, `busy
    {
      usage == Charges(idle) + Charges(busy)
    }

    ghost predicate TableOk()
      reads table, table.list, table.nodes`nextHash
    {
      table.Valid()
    }

    ghost predicate Ok(debt: LRUHandle?, loose: LRUHandle?)
      reads this, lru, inUse, table, table.list, table.nodes`nextHash, all, idle, busy
    {
      ListsOk() && MembersOk(loose) && RefsOk(debt) && IdleOk(null) && DeletedOk() && UsageOk() && TableOk()
    }

    ghost predicate Valid()
      reads this, lru, inUse, table, table.list, table.nodes`nextHash, all, idle, busy
    {
      Ok(null, null)
    }

    constructor (capacity: nat)
      ensures Valid() && this.capacity == capacity && all == {} && pins == multiset{} && idle == busy == deleted == []
    {
      this.capacity, usage := capacity, 0;
      lru := new LRUHandle([], 0, 0);
      inUse := new LRUHandle([], 0, 0);
      table := new HandleTable();
      idle, busy, all, pins, deleted := [], [], {}, multiset{}, [];
      new;
      lru.next, lru.prev := lru, lru;
      inUse.next, inUse.prev := inUse, inUse;
    }

    lemma IndexOf(nodes: seq<LRUHandle>, e: LRUHandle) returns (k: nat)
      requires e in nodes
      ensures k < |nodes| && nodes[k] == e
    {
      k :| 0 <= k < |nodes| && nodes[k] == e;
    }

    lemma RingsDistinct()
      requires ListsOk()
      ensures Distinct(idle) && Distinct(busy) && lru !in idle && inUse !in busy
    {
    }

    /** Moves an entry from the in-use list to the end of the other. */
    method MoveToIdle(e: LRUHandle)
      requires ListsOk() && UsageOk() && MembersOk(null) && e in busy && IdleOk(e) && e.refs == 1
      modifies this`idle, this`busy, lru`next, lru`prev, inUse`next, inUse`prev, all`next, all`prev
      ensures ListsOk() && UsageOk() && MembersOk(null) && IdleOk(null) && idle == old(idle) + [e]
      ensures forall x :: x in busy <==> x in old(busy) && x != e
    {
      hide Charges, IsRing, Distinct;
      RingsDistinct();
      ghost var k := IndexOf(busy, e);
      WithoutMembers(busy, k);
      ChargesWithout(busy, k);
      ChargesAppended(idle, e);
      LruMove(e, inUse, busy, k, lru, idle);
      busy := Without(busy, k);
      idle := idle + [e];
    }

    /** Moves an entry to the end of the in-use list. */
    method MoveToBusy(e: LRUHandle)
      requires ListsOk() && UsageOk() && MembersOk(null) && e in idle && IdleOk(null)
      modifies this`idle, this`busy, lru`next, lru`prev, inUse`next, inUse`prev, all`next, all`prev
      ensures ListsOk() && UsageOk() && MembersOk(null) && IdleOk(e) && busy == old(busy) + [e] && e !in idle
      ensures Lost(old(idle), e, idle)
      ensures forall x :: x in idle <==> x in old(idle) && x != e
    {
      hide Charges, IsRing, Distinct;
      RingsDistinct();
      ghost var k := IndexOf(idle, e);
      WithoutMembers(idle, k);
      ChargesWithout(idle, k);
      ChargesAppended(busy, e);
      LruMove(e, lru, idle, k, inUse, busy);
      idle := Without(idle, k);
      busy := busy + [e];
    }

    method CountUp(e: LRUHandle)
      requires e in all && e.refs > 0 && RefsOk(null) && DeletedOk() && IdleOk(e) && e !in idle
      modifies `pins, e`refs
      ensures RefsOk(null) && DeletedOk() && IdleOk(null) && pins == old(pins) + multiset{e} && e.refs == old(e.refs) + 1
    {
      e.refs := e.refs + 1;
      pins := pins + multiset{e};
    }

    method CountDown(e: LRUHandle)
      requires RefsOk(e) && DeletedOk() && IdleOk(e)
      modifies e`refs, `deleted
      ensures RefsOk(null) && DeletedOk() && IdleOk(e) && e.refs == old(e.refs) - 1 && e in all
      ensures deleted == old(deleted) + if old(e.refs) == 1 then [e] else []
    {
      e.refs := e.refs - 1;
      if e.refs == 0 {
        deleted := deleted + [e];
      }
    }

    method Ref(e: LRUHandle)
      requires Valid() && e in table.nodes
      modifies this`idle, this`busy, this`pins, lru`next, lru`prev, inUse`next, inUse`prev, all`next, all`prev, e`refs
      ensures Valid() && pins == old(pins) + multiset{e} && e in busy
      ensures Lost(old(idle), e, idle)
    {
      hide ListsOk, UsageOk, TableOk, DeletedOk, RefsOk, MembersOk, IdleOk;
      LeaveIdle(e);
      CountUp(e);
    }

    /** The move that comes with an entry's first client. */
    method LeaveIdle(e: LRUHandle)
      requires Valid() && e in table.nodes
      modifies this`idle, this`busy, lru`next, lru`prev, inUse`next, inUse`prev, all`next, all`prev
      ensures ListsOk() && MembersOk(null) && RefsOk(null) && IdleOk(e) && DeletedOk() && UsageOk() && TableOk()
      ensures e in all && e.refs > 0 && e !in idle && e in busy
      ensures Lost(old(idle), e, idle)
    {
      hide ListsOk, UsageOk, TableOk, DeletedOk, RefsOk, MembersOk, IdleOk;
      BeforeRef(e);
      if e.refs == 1 && e.inCache {
        MoveToBusy(e);
      }
    }

    lemma BeforeRef(e: LRUHandle)
      requires MembersOk(null) && RefsOk(null) && IdleOk(null) && e in table.nodes
      ensures e in all && e.inCache && e.refs > 0 && IdleOk(e)
      ensures e.refs == 1 ==> e in idle
      ensures e.refs != 1 ==> e !in idle && e in busy
    {
    }

    lemma InBusy(e: LRUHandle)
      requires MembersOk(null) && RefsOk(e) && IdleOk(null)
      ensures e.inCache ==> e in busy && e !in idle && e.refs >= 2
      ensures IdleOk(e)
    {
    }

    lemma NotInCache(e: LRUHandle)
      requires IdleOk(e) && MembersOk(null) && e in all
      ensures !e.inCache || (e.refs != 1 && e !in idle) ==> IdleOk(null)
    {
    }

    method Unref(e: LRUHandle)
      requires Ok(e, null)
      modifies this`idle, this`busy, this`deleted, lru`next, lru`prev, inUse`next, inUse`prev, all`next, all`prev, e`refs
      ensures Valid()
      ensures deleted == old(deleted) + if old(e.refs) == 1 then [e] else []
      ensures if e.inCache && old(e.refs) == 2 then idle == old(idle) + [e]
              else idle == old(idle) && busy == old(busy)
    {
      hide ListsOk, UsageOk, TableOk, DeletedOk, RefsOk, MembersOk, IdleOk;
      InBusy(e);
      CountDown(e);
      NotInCache(e);
      if e.refs > 0 && e.inCache && e.refs == 1 {
        MoveToIdle(e);
      }
    }

    method Lookup(key: Bytes, hash: nat) returns (e: LRUHandle?)
      requires Valid()
      modifies this`idle, this`busy, this`pins, lru`next, lru`prev, inUse`next, inUse`prev, all`next, all`prev, all`refs
      ensures Valid()
      ensures e == null ==> pins == old(pins) && forall x <- table.nodes :: !Matches(x, key, hash)
      ensures e == null ==> idle == old(idle) && busy == old(busy)
      ensures e != null ==> e in table.nodes && Matches(e, key, hash) && pins == old(pins) + multiset{e}
      ensures e != null ==> Lost(old(idle), e, idle) && e in busy
    {
      e := table.Lookup(key, hash);
      if e != null {
        Ref(e);
      }
    }

    method Release(e: LRUHandle)
      requires Valid() && e in pins
      modifies this`idle, this`busy, this`pins, this`deleted,
               lru`next, lru`prev, inUse`next, inUse`prev, all`next, all`prev, all`refs
      ensures Valid() && pins == old(pins) - multiset{e}
      ensures deleted == old(deleted) + if old(e.refs) == 1 then [e] else []
      ensures if e.inCache && old(e.refs) == 2 then idle == old(idle) + [e]
              else idle == old(idle) && busy == old(busy)
    {
      hide ListsOk, UsageOk, TableOk, DeletedOk, MembersOk, IdleOk;
      pins := pins - multiset{e};
      Unref(e);
    }

    /** Takes the entry off its list. */
    method Unlist(e: LRUHandle)
      requires ListsOk() && UsageOk() && (e in idle || e in busy)
      modifies this`idle, this`busy, this`usage, lru`next, lru`prev, inUse`next, inUse`prev, all`next, all`prev
      ensures ListsOk() && UsageOk() && Lost(old(idle), e, idle) && Lost(old(busy), e, busy)
      ensures forall x :: x in idle <==> x in old(idle) && x != e
      ensures forall x :: x in busy <==> x in old(busy) && x != e
    {
      hide Charges, IsRing, Distinct;
      RingsDistinct();
      ghost var isIdle := e in idle;
      ghost var head, nodes := if isIdle then lru else inUse, if isIdle then idle else busy;
      ghost var other, others := if isIdle then inUse else lru, if isIdle then busy else idle;
      ghost var k := IndexOf(nodes, e);
      WithoutMembers(nodes, k);
      ChargesWithout(nodes, k);
      RemoveBeside(e, head, nodes, k, other, others);
      if isIdle {
        idle := Without(idle, k);
      } else {
        busy := Without(busy, k);
      }
      usage := usage - e.charge;
    }

    method FinishErase(e: LRUHandle?)
      requires Ok(null, e)
      modifies this`idle, this`busy, this`usage, this`deleted,
               lru`next, lru`prev, inUse`next, inUse`prev, all`next, all`prev, all`refs, all`inCache
      ensures Valid()
      ensures e == null ==> idle == old(idle) && busy == old(busy) && deleted == old(deleted)
      ensures e != null ==> Lost(old(idle), e, idle) && Lost(old(busy), e, busy)
      ensures e != null ==> deleted == old(deleted) + if e in old(idle) then [e] else []
    {
      hide ListsOk, UsageOk, TableOk, DeletedOk, RefsOk, MembersOk, IdleOk, Lost;
      if e != null {
        LooseFacts(e);
        Detach(e);
        Unref(e);
      }
    }

    /** Takes the entry out of the cache but for the cache's reference. */
    method Detach(e: LRUHandle)
      requires Ok(null, e)
      modifies this`idle, this`busy, this`usage, lru`next, lru`prev, inUse`next, inUse`prev, all`next, all`prev, e`inCache
      ensures Ok(e, null) && Lost(old(idle), e, idle) && Lost(old(busy), e, busy) && !e.inCache
    {
      hide ListsOk, UsageOk, TableOk, DeletedOk, Lost;
      LooseFacts(e);
      Unlist(e);
      e.inCache := false;
    }

    lemma LooseFacts(e: LRUHandle)
      requires MembersOk(e) && RefsOk(null) && IdleOk(null)
      ensures e in all && e.inCache && (e in idle || e in busy)
      ensures e in idle <==> e.refs == 1
    {
    }

    /** Takes the entry with a key out of the table only. */
    method TakeFromTable(key: Bytes, hash: nat) returns (e: LRUHandle?)
      requires Valid()
      modifies table, table.list, all`nextHash
      ensures Ok(null, e) && table.list == old(table.list)
      ensures e != null ==> e in old(table.nodes) && Matches(e, key, hash) && table.nodes == old(table.nodes) - {e}
      ensures e == null ==> table.nodes == old(table.nodes) && forall x <- table.nodes :: !Matches(x, key, hash)
    {
      hide ListsOk, UsageOk, DeletedOk, RefsOk, IdleOk, HandleTable.Valid;
      TableInAll(null);
      e := table.Remove(key, hash);
      assert e != null ==> table.nodes == old(table.nodes) - {e};
    }

    lemma TableInAll(loose: LRUHandle?)
      requires MembersOk(loose)
      ensures table.nodes <= all
    {
    }

    method Erase(key: Bytes, hash: nat)
      requires Valid()
      modifies this`idle, this`busy, this`usage, this`deleted, table, table.list,
               lru`next, lru`prev, inUse`next, inUse`prev, all
      ensures Valid() && pins == old(pins)
      ensures forall x <- table.nodes :: x in old(table.nodes) && !Matches(x, key, hash)
      ensures forall x <- old(table.nodes) | x !in table.nodes :: Matches(x, key, hash)
      ensures forall x <- old(idle) | Matches(x, key, hash) :: deleted == old(deleted) + [x]
      ensures (forall x <- old(idle) :: !Matches(x, key, hash)) ==> deleted == old(deleted)
    {
      TableKeysUnique();
      var e := TakeFromTable(key, hash);
      FinishErase(e);
    }

    lemma TableKeysUnique()
      requires Valid()
      ensures UniqueKeys(table.nodes) && table.nodes <= all
      ensures forall x <- idle :: x in table.nodes
      ensures forall x <- busy :: x in table.nodes
      ensures forall x <- idle :: x !in busy
      ensures lru.next == RingNode(lru, idle, 0) && lru !in idle && Distinct(idle)
    {
      hide DeletedOk, RefsOk, IdleOk;
      assert RingNode(lru, idle, -1) == lru;
    }

    /** Evicts the oldest entry that nobody uses. */
    method EvictOldest()
      requires Valid() && idle != []
      modifies this`idle, this`busy, this`usage, this`deleted, table, table.list,
               lru`next, lru`prev, inUse`next, inUse`prev, all
      ensures Valid() && table.list == old(table.list)
      ensures idle == old(idle)[1..] && busy == old(busy) && deleted == old(deleted) + [old(idle)[0]]
      ensures table.nodes == old(table.nodes) - {old(idle)[0]}
    {
      hide Ok;
      TableKeysUnique();
      ghost var before, oldest := idle, idle[0];
      var e := lru.next;
      var erased := TakeFromTable(e.key, e.hash);
      FinishErase(erased);
      FirstLost(before, idle);
    }

    // ----- Insertion -----

    /** A new entry with one reference, which the client holds. */
    method NewEntry(key: Bytes, hash: nat, charge: nat) returns (e: LRUHandle)
      requires Valid()
      modifies this`all, this`pins
      ensures Valid() && fresh(e) && e.key == key && e.hash == hash && e.charge == charge
      ensures all == old(all) + {e} && pins == old(pins) + multiset{e} && !e.inCache
    {
      hide Ok;
      e := new LRUHandle(key, hash, charge);
      Register(e);
    }

    method Register(e: LRUHandle)
      requires Valid() && e !in all && e != lru && e != inUse && e.refs == 1 && !e.inCache
      modifies this`all, this`pins
      ensures Valid() && all == old(all) + {e} && pins == old(pins) + multiset{e}
    {
      hide UsageOk, TableOk, Distinct, ListsOk, MembersOk, IdleOk;
      GrowAll(e);
      pins := pins + multiset{e};
    }

    lemma PinnedIsBusy(e: LRUHandle)
      requires Valid() && e in pins
      ensures e !in idle
    {
      hide TableOk, DeletedOk, UsageOk, IsRing, Distinct;
    }

    ghost method GrowAll(e: LRUHandle)
      requires ListsOk() && MembersOk(null) && IdleOk(null) && e !in all && e != lru && e != inUse && !e.inCache
      modifies `all
      ensures ListsOk() && MembersOk(null) && IdleOk(null) && all == old(all) + {e}
    {
      hide IsRing;
      all := all + {e};
    }

    /** Counts the cache's reference. */
    method CountForCache(e: LRUHandle)
      requires RefsOk(null) && DeletedOk() && IdleOk(null) && e in pins && !e.inCache && e !in idle
      modifies e`refs, e`inCache
      ensures RefsOk(null) && DeletedOk() && IdleOk(null) && e.inCache
    {
      e.refs := e.refs + 1;
      e.inCache := true;
    }

    method AppendToBusy(e: LRUHandle)
      requires ListsOk() && UsageOk() && e in all && e !in idle && e !in busy
      modifies this`busy, this`usage, lru`next, lru`prev, inUse`next, inUse`prev, all`next, all`prev
      ensures ListsOk() && UsageOk() && busy == old(busy) + [e]
    {
      hide IsRing, Charges, Distinct;
      RingsDistinct();
      ChargesAppended(busy, e);
      AppendBeside(inUse, e, busy, lru, idle);
      busy := busy + [e];
      usage := usage + e.charge;
    }

    /** Puts a new entry on the in-use list, with a reference for the cache. */
    method Enlist(e: LRUHandle)
      requires Valid() && e in pins && !e.inCache
      modifies this`busy, this`usage, lru`next, lru`prev, inUse`next, inUse`prev, all`next, all`prev, e`refs, e`inCache
      ensures Ok(null, e) && busy == old(busy) + [e]
    {
      hide ListsOk, UsageOk, TableOk, DeletedOk, RefsOk, IdleOk;
      PinnedOutside(e);
      CountForCache(e);
      AppendToBusy(e);
    }

    lemma PinnedOutside(e: LRUHandle)
      requires RefsOk(null) && MembersOk(null) && e in pins && !e.inCache
      ensures e in all && e !in idle && e !in busy && e !in table.nodes
    {
    }

    /** Puts the entry into the table, and the one with its key out of it. */
    method PutIntoTable(e: LRUHandle) returns (replaced: LRUHandle?)
      requires Ok(null, e)
      modifies table, table.list, all`nextHash
      ensures Ok(null, replaced) && (table.list == old(table.list) || fresh(table.list))
      ensures replaced != null ==> replaced in old(table.nodes) && Matches(replaced, e.key, e.hash)
      ensures replaced == null ==> forall x <- old(table.nodes) :: !Matches(x, e.key, e.hash)
      ensures table.nodes == (if replaced == null then old(table.nodes) else old(table.nodes) - {replaced}) + {e}
    {
      hide ListsOk, UsageOk, DeletedOk, RefsOk, IdleOk, HandleTable.Valid;
      TableInAll(e);
      replaced := table.Insert(e);
    }

    /** Inserts an entry, in the place of one with the same key, and evicts the
        oldest idle entries until the rest fits. */
    method Insert(key: Bytes, hash: nat, charge: nat) returns (e: LRUHandle, ghost replaced: LRUHandle?, ghost kept: seq<LRUHandle>)
      requires Valid()
      modifies this`idle, this`busy, this`usage, this`deleted, this`all, this`pins, table, table.list,
               lru`next, lru`prev, inUse`next, inUse`prev, all
      ensures Valid() && fresh(e) && e.key == key && e.hash == hash && e.charge == charge
      ensures pins == old(pins) + multiset{e}
      ensures usage <= capacity || idle == []
      ensures e in table.nodes <==> capacity > 0
      ensures if replaced == null then kept == old(idle)
              else replaced in old(table.nodes) && Matches(replaced, key, hash) && Lost(old(idle), replaced, kept)
      ensures capacity > 0 && replaced == null ==> forall x <- old(table.nodes) :: !Matches(x, key, hash)
      ensures var m := Victims(kept, Charges(busy), capacity);
        && idle == kept[m..] && (m > 0 ==> Charges(kept[m - 1..]) + Charges(busy) > capacity)
        && deleted == old(deleted) + (if replaced != null && replaced in old(idle) then [replaced] else []) + kept[..m]
    {
      hide Valid, Ok, Lost, Charges;
      e := NewEntry(key, hash, charge);
      replaced := null;
      if capacity > 0 {
        replaced := Enter(e);
      } else {
        NotYetInTable(e);
      }
      PinnedIsBusy(e);
      kept := idle;
      EvictSurplus();
      VictimsNeeded(kept, Charges(busy), capacity);
    }

    /** Enters a new entry into the cache. */
    method Enter(e: LRUHandle) returns (ghost replaced: LRUHandle?)
      requires Valid() && e in pins && !e.inCache
      modifies this`idle, this`busy, this`usage, this`deleted, table, table.list,
               lru`next, lru`prev, inUse`next, inUse`prev, all
      ensures Valid() && e in table.nodes && (table.list == old(table.list) || fresh(table.list))
      ensures replaced == null ==> idle == old(idle) && deleted == old(deleted)
      ensures replaced == null ==> forall x <- old(table.nodes) :: !Matches(x, e.key, e.hash)
      ensures replaced != null ==> replaced in old(table.nodes) && Matches(replaced, e.key, e.hash) && Lost(old(idle), replaced, idle)
      ensures replaced != null ==> deleted == old(deleted) + if replaced in old(idle) then [replaced] else []
    {
      hide Ok, Lost;
      NotYetInTable(e);
      Enlist(e);
      var gone := PutIntoTable(e);
      replaced := gone;
      FinishErase(gone);
    }

    lemma NotYetInTable(e: LRUHandle)
      requires Valid() && !e.inCache && e in pins
      ensures e !in table.nodes && table.nodes <= all && e in all
    {
      hide ListsOk, UsageOk, TableOk, DeletedOk, IdleOk;
    }

    /** Evicts the oldest idle entries while the cache holds too much. */
    method EvictSurplus()
      requires Valid()
      modifies this`idle, this`busy, this`usage, this`deleted, table, table.list,
               lru`next, lru`prev, inUse`next, inUse`prev, all
      ensures Valid() && table.list == old(table.list) && busy == old(busy)
      ensures usage <= capacity || idle == []
      ensures var m := Victims(old(idle), Charges(busy), capacity);
        idle == old(idle)[m..] && deleted == old(deleted) + old(idle)[..m]
      ensures table.nodes <= old(table.nodes) && forall x <- old(table.nodes) | x !in old(idle) :: x in table.nodes
    {
      hide Ok, Charges;
      ghost var before, m := idle, 0;
      UsageIs();
      TableKeysUnique();
      while usage > capacity && lru.next != lru
        invariant Valid() && table.list == old(table.list) && all == old(all)
        invariant lru.next == RingNode(lru, idle, 0) && lru !in idle && usage == Charges(idle) + Charges(busy)
        invariant m <= |before| && idle == before[m..] && deleted == old(deleted) + before[..m] && busy == old(busy)
        invariant Victims(before, Charges(busy), capacity) == m + Victims(idle, Charges(busy), capacity)
        invariant table.nodes <= old(table.nodes) && forall x <- old(table.nodes) | x !in old(idle) :: x in table.nodes
        decreases |idle|
      {
        assert before[m] == idle[0] && before[..m + 1] == before[..m] + [before[m]];
        EvictOldest();
        m := m + 1;
        UsageIs();
        TableKeysUnique();
      }
    }

    lemma UsageIs()
      requires Valid()
      ensures usage == Charges(idle) + Charges(busy)
    {
    }

    method Prune()
      requires Valid()
      modifies this`idle, this`busy, this`usage, this`deleted, table, table.list,
               lru`next, lru`prev, inUse`next, inUse`prev, all
      ensures Valid() && idle == [] && busy == old(busy) && deleted == old(deleted) + old(idle)
    {
      hide Valid;
      TableKeysUnique();
      while lru.next != lru
        invariant Valid() && table.list == old(table.list) && all == old(all)
        invariant lru.next == RingNode(lru, idle, 0) && lru !in idle
        invariant busy == old(busy) && deleted + idle == old(deleted) + old(idle)
        decreases |idle|
      {
        EvictOldest();
        TableKeysUnique();
      }
    }
  }

  lemma FirstLost(before: seq<LRUHandle>, after: seq<LRUHandle>)
    requires Distinct(before) && before != [] && Lost(before, before[0], after)
    ensures after == before[1..]
  {
    var k :| 0 <= k < |before| && before[k] == before[0] && after == Without(before, k);
    assert k == 0;
  }
}
