/**
 Translation tables as a tree of tables, independent of where the words are stored.
 `tabs[t][i]` is entry `i` of the t-th table taken from the arena; `own[t]` records the
 level at which that table is used and which part of the address space it resolves.
 */
module PageTree {
  import opened Bits
  import opened Options
  import opened Vmsa

  type Tables = seq<seq<U64>>

  datatype Config = Config(g: Granule, base: nat, start: nat)
  {
    predicate Valid() {
      start < 3 && (g.Granule64K? ==> start == 2)
    }
  }

  /** A table divides one block of the level above: the table's level, and the number of that block. */
  type TableKey = (nat, nat)

  datatype Owner = Owner(level: nat, prefix: nat, parent: nat)

  datatype Leaf = Leaf(level: nat, word: nat)

  /** The descriptor that points to table `t`. */
  function TableWord(c: Config, t: nat): nat
  {
    c.base + TableOffset(c.g, t) + 3
  }

  function Child(c: Config, w: nat): int
  {
    if c.g.Granule4K? then (w - 3 - c.base) / 0x1000 else (w - 3 - c.base) / 0x1_0000
  }

  lemma ChildOfTableWord(c: Config, t: nat)
    ensures Child(c, TableWord(c, t)) == t
  {
  }

  // ---- Well-formed trees ----

  ghost predicate EntryOk(c: Config, tabs: Tables, own: seq<Owner>, t: nat, i: nat)
    requires t < |own| == |tabs| && i < |tabs[t]|
  {
    var w, level := tabs[t][i], own[t].level;
    || w % 4 == 0
    || (w % 4 == 1 && c.start < level < 3)
    || (w % 4 == 3 && level == 3)
    || (w % 4 == 3 && level < 3 && ChildOk(c, own, t, i, w))
  }

  ghost predicate ChildOk(c: Config, own: seq<Owner>, t: nat, i: nat, w: nat)
    requires t < |own|
  {
    var k := Child(c, w);
    && 0 < k < |own|
    && w == TableWord(c, k)
    && own[k].level == own[t].level + 1
    && own[k].prefix == Join(c.g, own[t].prefix, i)
  }

  ghost predicate Shaped(c: Config, tabs: Tables, own: seq<Owner>)
  {
    && c.Valid()
    && |tabs| == |own| > 0
    && own[0].level == c.start && own[0].prefix == 0
    && (forall t :: 0 <= t < |tabs| ==> |tabs[t]| == Entries(c.g) && c.start <= own[t].level <= 3)
  }

  /** Every entry is invalid, a leaf its level allows, or a pointer to the right kind of table. */
  ghost predicate WellFormed(c: Config, tabs: Tables, own: seq<Owner>)
  {
    && Shaped(c, tabs, own)
    && forall t, i :: 0 <= t < |tabs| && 0 <= i < |tabs[t]| ==> EntryOk(c, tabs, own, t, i)
  }

  ghost predicate LinkOk(c: Config, tabs: Tables, own: seq<Owner>, t: nat)
    requires Shaped(c, tabs, own) && t < |own|
  {
    var o := own[t];
    && o.parent < |own|
    && own[o.parent].level + 1 == o.level
    && own[o.parent].prefix == Quot(c.g, o.prefix)
    && tabs[o.parent][Rem(c.g, o.prefix)] % 4 != 0
  }

  /**
   Every table but the root was reached from an entry that is still in use, and no two tables serve the same purpose.
   */
  ghost predicate Linked(c: Config, tabs: Tables, own: seq<Owner>)
    requires Shaped(c, tabs, own)
  {
    && (forall t :: 0 < t < |own| ==> LinkOk(c, tabs, own, t))
    && (forall t, u :: 0 <= t < u < |own| ==> Key(own[t]) != Key(own[u]))
  }

  function Key(o: Owner): TableKey
  {
    (o.level, o.prefix)
  }

  ghost predicate InRange(c: Config, va: nat)
    requires c.Valid()
  {
    Blk(c.g, va, c.start) < Entries(c.g)
  }

  // ---- Looking up an address ----

  /** The table that resolves `va` at `level`, if the tables reach that far. */
  ghost function TableAt(c: Config, tabs: Tables, own: seq<Owner>, va: nat, level: nat): (r: Option<nat>)
    requires WellFormed(c, tabs, own) && InRange(c, va) && c.start <= level <= 3
    ensures r.Some? ==> r.value < |own| && own[r.value].level == level
                        && own[r.value].prefix == Quot(c.g, Blk(c.g, va, level))
  {
    if level == c.start then Some(0)
    else
      match TableAt(c, tabs, own, va, level - 1)
      case None => None
      case Some(t) =>
        var i := Index(c.g, va, level - 1);
        assert EntryOk(c, tabs, own, t, i);
        SplitJoin(c.g, Blk(c.g, va, level - 1));
        if tabs[t][i] % 4 == 3 then Some(Child(c, tabs[t][i])) else None
  }

  ghost predicate Resolves(c: Config, own: seq<Owner>, t: nat, level: nat, va: nat)
    requires c.Valid() && level <= 3
  {
    t < |own| && own[t].level == level && own[t].prefix == Quot(c.g, Blk(c.g, va, level))
  }

  ghost function LeafFrom(c: Config, tabs: Tables, own: seq<Owner>, t: nat, level: nat, va: nat): (r: Option<Leaf>)
    requires WellFormed(c, tabs, own) && c.start <= level <= 3 && Resolves(c, own, t, level, va)
    decreases 3 - level
  {
    var i := Index(c.g, va, level);
    var w := tabs[t][i];
    assert EntryOk(c, tabs, own, t, i);
    if w % 4 == 0 then None
    else if w % 4 == 1 || level == 3 then Some(Leaf(level, w))
    else
      SplitJoin(c.g, Blk(c.g, va, level));
      LeafFrom(c, tabs, own, Child(c, w), level + 1, va)
  }

  /** The leaf that translates `va`. */
  ghost function Lookup(c: Config, tabs: Tables, own: seq<Owner>, va: nat): Option<Leaf>
    requires WellFormed(c, tabs, own) && InRange(c, va)
  {
    LeafFrom(c, tabs, own, 0, c.start, va)
  }

  lemma {:induction false} LookupVia(c: Config, tabs: Tables, own: seq<Owner>, va: nat, level: nat)
    requires WellFormed(c, tabs, own) && InRange(c, va) && c.start <= level <= 3
    ensures var r := TableAt(c, tabs, own, va, level);
            r.Some? ==> Lookup(c, tabs, own, va) == LeafFrom(c, tabs, own, r.value, level, va)
  {
    if level > c.start {
      LookupVia(c, tabs, own, va, level - 1);
    }
  }

  /** If the tables stop short of `level` below a used entry, that entry is a coarser leaf. */
  lemma BlockedBy(c: Config, tabs: Tables, own: seq<Owner>, va: nat, level: nat)
    requires WellFormed(c, tabs, own) && InRange(c, va) && c.start <= level < 3
    requires TableAt(c, tabs, own, va, level).Some?
    requires tabs[TableAt(c, tabs, own, va, level).value][Index(c.g, va, level)] % 4 != 0
    requires TableAt(c, tabs, own, va, level + 1).None?
    ensures Lookup(c, tabs, own, va).Some? && Lookup(c, tabs, own, va).value.level == level
  {
    LookupVia(c, tabs, own, va, level);
    assert EntryOk(c, tabs, own, TableAt(c, tabs, own, va, level).value, Index(c.g, va, level));
  }

  lemma {:induction false} TableAtSameBlock(c: Config, tabs: Tables, own: seq<Owner>, va: nat, va': nat, level: nat)
    requires WellFormed(c, tabs, own) && InRange(c, va) && InRange(c, va') && c.start <= level <= 3
    requires Blk(c.g, va, level) == Blk(c.g, va', level)
    ensures TableAt(c, tabs, own, va, level) == TableAt(c, tabs, own, va', level)
  {
    if level > c.start {
      BlkAncestors(c.g, va, va', level - 1, level);
      TableAtSameBlock(c, tabs, own, va, va', level - 1);
    }
  }

  // ---- Writing a leaf ----

  function Put(tabs: Tables, t: nat, i: nat, w: U64): Tables
    requires t < |tabs| && i < |tabs[t]|
  {
    var row: seq<U64> := tabs[t][i := w];
    tabs[t := row]
  }

  lemma PutLeafWellFormed(c: Config, tabs: Tables, own: seq<Owner>, t: nat, i: nat, w: U64)
    requires WellFormed(c, tabs, own) && Linked(c, tabs, own)
    requires t < |tabs| && i < Entries(c.g) && c.start < own[t].level
    requires w % 4 == if own[t].level == 3 then 3 else 1
    ensures WellFormed(c, Put(tabs, t, i, w), own)
    ensures Linked(c, Put(tabs, t, i, w), own)
  {
    var tabs' := Put(tabs, t, i, w);
    forall u, j | 0 <= u < |tabs'| && 0 <= j < |tabs'[u]|
      ensures EntryOk(c, tabs', own, u, j)
    {
      assert EntryOk(c, tabs, own, u, j);
    }
    forall u | 0 < u < |own|
      ensures LinkOk(c, tabs', own, u)
    {
      assert LinkOk(c, tabs, own, u);
    }
  }

  lemma {:induction false} PutLeafTableAt(c: Config, tabs: Tables, own: seq<Owner>, t: nat, i: nat, w: U64, va: nat,
                                          level: nat)
    requires WellFormed(c, tabs, own) && t < |tabs| && i < Entries(c.g)
    requires WellFormed(c, Put(tabs, t, i, w), own)
    requires InRange(c, va) && c.start <= level <= own[t].level
    ensures TableAt(c, Put(tabs, t, i, w), own, va, level) == TableAt(c, tabs, own, va, level)
  {
    if level > c.start {
      PutLeafTableAt(c, tabs, own, t, i, w, va, level - 1);
    }
  }

  lemma {:induction false} PutLeafElsewhere(c: Config, tabs: Tables, own: seq<Owner>, t: nat, i: nat, w: U64, u: nat,
                                            level: nat, va: nat)
    requires WellFormed(c, tabs, own) && t < |tabs| && i < Entries(c.g)
    requires WellFormed(c, Put(tabs, t, i, w), own)
    requires c.start <= level <= 3 && Resolves(c, own, u, level, va)
    requires Blk(c.g, va, own[t].level) != Join(c.g, own[t].prefix, i)
    ensures LeafFrom(c, Put(tabs, t, i, w), own, u, level, va) == LeafFrom(c, tabs, own, u, level, va)
    decreases 3 - level
  {
    var j := Index(c.g, va, level);
    SplitJoin(c.g, Blk(c.g, va, level));
    assert !(u == t && j == i);
    assert Put(tabs, t, i, w)[u][j] == tabs[u][j];
    assert EntryOk(c, tabs, own, u, j);
    if tabs[u][j] % 4 == 3 && level < 3 {
      PutLeafElsewhere(c, tabs, own, t, i, w, Child(c, tabs[u][j]), level + 1, va);
    }
  }

  /** A leaf written where `va` is resolved at `level` changes the lookup of that block and of nothing else. */
  lemma PutLeafLookup(c: Config, tabs: Tables, own: seq<Owner>, va: nat, level: nat, w: U64, va': nat)
    requires WellFormed(c, tabs, own) && Linked(c, tabs, own) && InRange(c, va) && InRange(c, va')
    requires c.start < level <= 3 && TableAt(c, tabs, own, va, level).Some?
    requires w % 4 == if level == 3 then 3 else 1
    ensures var t := TableAt(c, tabs, own, va, level).value;
            var tabs' := Put(tabs, t, Index(c.g, va, level), w);
            && WellFormed(c, tabs', own)
            && Lookup(c, tabs', own, va')
               == if Blk(c.g, va', level) == Blk(c.g, va, level) then Some(Leaf(level, w))
                 else Lookup(c, tabs, own, va')
  {
    var t, i := TableAt(c, tabs, own, va, level).value, Index(c.g, va, level);
    var tabs' := Put(tabs, t, i, w);
    PutLeafWellFormed(c, tabs, own, t, i, w);
    SplitJoin(c.g, Blk(c.g, va, level));
    if Blk(c.g, va', level) == Blk(c.g, va, level) {
      TableAtSameBlock(c, tabs, own, va, va', level);
      PutLeafTableAt(c, tabs, own, t, i, w, va', level);
      LookupVia(c, tabs', own, va', level);
    } else {
      PutLeafElsewhere(c, tabs, own, t, i, w, 0, c.start, va');
    }
  }

  // ---- Adding a table ----

  function ZeroTable(g: Granule): seq<U64>
  {
    seq(Entries(g), _ => 0)
  }

  function Grow(c: Config, tabs: Tables, t: nat, i: nat): Tables
    requires t < |tabs| && i < |tabs[t]| && TableWord(c, |tabs|) < U64_SIZE
  {
    Put(tabs, t, i, TableWord(c, |tabs|)) + [ZeroTable(c.g)]
  }

  function GrowOwners(c: Config, own: seq<Owner>, t: nat, i: nat): seq<Owner>
    requires t < |own|
  {
    own + [Owner(own[t].level + 1, Join(c.g, own[t].prefix, i), t)]
  }

  ghost predicate CanGrow(c: Config, tabs: Tables, own: seq<Owner>, t: nat, i: nat)
  {
    && WellFormed(c, tabs, own) && Linked(c, tabs, own)
    && c.base % 4 == 0
    && t < |tabs| && i < Entries(c.g) && own[t].level < 3
    && tabs[t][i] % 4 == 0
    && TableWord(c, |tabs|) < U64_SIZE
  }

  /** The key of the new table is not in use yet, because an entry that led to such a table would not be invalid. */
  lemma GrowKeyFresh(c: Config, tabs: Tables, own: seq<Owner>, t: nat, i: nat, u: nat)
    requires CanGrow(c, tabs, own, t, i) && u < |own|
    ensures Key(own[u]) != (own[t].level + 1, Join(c.g, own[t].prefix, i))
  {
    JoinSplit(c.g, own[t].prefix, i);
    if u > 0 {
      assert LinkOk(c, tabs, own, u);
      var p := own[u].parent;
      assert p != t ==> Key(own[p]) != Key(own[t]);
    }
  }

  lemma GrowWellFormed(c: Config, tabs: Tables, own: seq<Owner>, t: nat, i: nat)
    requires CanGrow(c, tabs, own, t, i)
    ensures WellFormed(c, Grow(c, tabs, t, i), GrowOwners(c, own, t, i))
  {
    var tabs', own' := Grow(c, tabs, t, i), GrowOwners(c, own, t, i);
    forall u, j | 0 <= u < |tabs'| && 0 <= j < |tabs'[u]|
      ensures EntryOk(c, tabs', own', u, j)
    {
      GrowEntryOk(c, tabs, own, t, i, u, j);
    }
  }

  lemma GrowEntryOk(c: Config, tabs: Tables, own: seq<Owner>, t: nat, i: nat, u: nat, j: nat)
    requires CanGrow(c, tabs, own, t, i)
    requires u <= |tabs| && j < Entries(c.g)
    ensures EntryOk(c, Grow(c, tabs, t, i), GrowOwners(c, own, t, i), u, j)
  {
    hide Linked, Join;
    var tabs', own' := Grow(c, tabs, t, i), GrowOwners(c, own, t, i);
    if u == t && j == i {
      ChildOfTableWord(c, |tabs|);
      LinkType(c, |tabs|);
    } else if u < |tabs| {
      hide TableWord, Child;
      assert EntryOk(c, tabs, own, u, j);
      assert tabs'[u][j] == tabs[u][j];
    }
  }

  lemma LinkType(c: Config, t: nat)
    requires c.base % 4 == 0
    ensures TableWord(c, t) % 4 == 3
  {
  }

  lemma GrowLinked(c: Config, tabs: Tables, own: seq<Owner>, t: nat, i: nat)
    requires CanGrow(c, tabs, own, t, i)
    requires WellFormed(c, Grow(c, tabs, t, i), GrowOwners(c, own, t, i))
    ensures Linked(c, Grow(c, tabs, t, i), GrowOwners(c, own, t, i))
  {
    var tabs', own' := Grow(c, tabs, t, i), GrowOwners(c, own, t, i);
    var n := |tabs|;
    JoinSplit(c.g, own[t].prefix, i);
    forall u | 0 < u < |own'|
      ensures LinkOk(c, tabs', own', u)
    {
      if u < n {
        assert LinkOk(c, tabs, own, u);
      } else {
        assert EntryOk(c, tabs', own', t, i);
        assert tabs'[t][i] == TableWord(c, n);
      }
    }
    forall u, v | 0 <= u < v < |own'|
      ensures Key(own'[u]) != Key(own'[v])
    {
      if v == n {
        GrowKeyFresh(c, tabs, own, t, i, u);
      }
    }
  }

  lemma {:induction false} GrowLeafFrom(c: Config, tabs: Tables, own: seq<Owner>, t: nat, i: nat, u: nat, level: nat,
                                        va: nat)
    requires CanGrow(c, tabs, own, t, i)
    requires WellFormed(c, Grow(c, tabs, t, i), GrowOwners(c, own, t, i))
    requires c.start <= level <= 3 && Resolves(c, own, u, level, va)
    ensures LeafFrom(c, Grow(c, tabs, t, i), GrowOwners(c, own, t, i), u, level, va)
            == LeafFrom(c, tabs, own, u, level, va)
    decreases 3 - level
  {
    var tabs', own' := Grow(c, tabs, t, i), GrowOwners(c, own, t, i);
    var j := Index(c.g, va, level);
    SplitJoin(c.g, Blk(c.g, va, level));
    assert EntryOk(c, tabs, own, u, j);
    if u == t && j == i {
      ChildOfTableWord(c, |tabs|);
      assert EntryOk(c, tabs', own', u, j);
    } else if tabs[u][j] % 4 == 3 && level < 3 {
      GrowLeafFrom(c, tabs, own, t, i, Child(c, tabs[u][j]), level + 1, va);
    }
  }

  lemma {:induction false} GrowTableAt(c: Config, tabs: Tables, own: seq<Owner>, t: nat, i: nat, va: nat, level: nat)
    requires CanGrow(c, tabs, own, t, i)
    requires WellFormed(c, Grow(c, tabs, t, i), GrowOwners(c, own, t, i))
    requires InRange(c, va) && c.start <= level <= own[t].level
    ensures TableAt(c, Grow(c, tabs, t, i), GrowOwners(c, own, t, i), va, level) == TableAt(c, tabs, own, va, level)
  {
    if level > c.start {
      GrowTableAt(c, tabs, own, t, i, va, level - 1);
    }
  }

  lemma GrowLink(c: Config, tabs: Tables, own: seq<Owner>, t: nat, i: nat)
    requires CanGrow(c, tabs, own, t, i)
    ensures Grow(c, tabs, t, i)[t][i] % 4 == 3
  {
    LinkType(c, |tabs|);
  }

  /** After the entry for `va` got a table, the walk for `va` reaches one level further. */
  lemma {:induction false} GrowReaches(c: Config, tabs: Tables, own: seq<Owner>, va: nat, level: nat)
    requires WellFormed(c, tabs, own) && InRange(c, va) && c.start <= level < 3
    requires TableAt(c, tabs, own, va, level).Some?
    requires CanGrow(c, tabs, own, TableAt(c, tabs, own, va, level).value, Index(c.g, va, level))
    ensures var t, i := TableAt(c, tabs, own, va, level).value, Index(c.g, va, level);
            var tabs', own' := Grow(c, tabs, t, i), GrowOwners(c, own, t, i);
            WellFormed(c, tabs', own') && TableAt(c, tabs', own', va, level + 1).Some?
  {
    var t, i := TableAt(c, tabs, own, va, level).value, Index(c.g, va, level);
    GrowWellFormed(c, tabs, own, t, i);
    GrowTableAt(c, tabs, own, t, i, va, level);
    GrowLink(c, tabs, own, t, i);
  }

  // ---- The tables in the order they were taken ----

  ghost function Keys(own: seq<Owner>): (keys: seq<TableKey>)
    ensures |keys| == |own|
  {
    seq(|own|, t requires 0 <= t < |own| => Key(own[t]))
  }

  lemma KeysGrow(c: Config, own: seq<Owner>, t: nat, i: nat)
    requires t < |own|
    ensures Keys(GrowOwners(c, own, t, i)) == Keys(own) + [(own[t].level + 1, Join(c.g, own[t].prefix, i))]
  {
  }
}
