/**
 CopyFS metadata cache (`cache.c`): a table of buckets, each an intrusive list of metadata blocks that are
 relinked in place.
 */
module CacheHeap {
  import opened Versions

  /** The part of a `metadata_t` the cache knows: its name, its links, and the block it carries. */
  class Node {
    const vfile: string
    var md: Metadata
    var next: Node?
    var previous: Node?

    constructor (vfile: string, md: Metadata)
      ensures this.vfile == vfile && this.md == md
    {
      this.vfile, this.md, next, previous := vfile, md, null, null;
    }
  }

  /** The first node of a chain that carries the name, or -1: `strcmp` along `md_next`. */
  ghost function Find(chain: seq<Node>, vpath: string): (i: int)
    ensures -1 <= i < |chain|
    ensures i >= 0 ==> chain[i].vfile == vpath
    ensures forall j | 0 <= j < |chain| && (i < 0 || j < i) :: chain[j].vfile != vpath
  {
    if chain == [] then -1
    else if chain[0].vfile == vpath then 0
    else
      var i := Find(chain[1..], vpath);
      if i < 0 then -1 else i + 1
  }

  ghost function Without(chain: seq<Node>, i: nat): seq<Node>
    requires i < |chain|
  {
    chain[..i] + chain[i + 1..]
  }

  ghost function MovedToFront(chain: seq<Node>, i: nat): seq<Node>
    requires i < |chain|
  {
    [chain[i]] + Without(chain, i)
  }

  /** The node at a place of the chain, NULL outside it. */
  ghost function At(chain: seq<Node>, i: int): Node? {
    if 0 <= i < |chain| then chain[i] else null
  }

  ghost predicate Distinct(chain: seq<Node>) {
    forall i, j | 0 <= i < j < |chain| :: chain[i] != chain[j]
  }

  /** Each node's next link leads to the next of the chain; a back link is NULL or the true predecessor. */
  ghost predicate Chained(chain: seq<Node>)
    reads chain`next, chain`previous
  {
    && Distinct(chain)
    && (forall i | 0 <= i < |chain| :: chain[i].next == At(chain, i + 1))
    && (forall i | 0 <= i < |chain| :: chain[i].previous == null || chain[i].previous == At(chain, i - 1))
  }

  ghost predicate UniqueKeys(chain: seq<Node>) {
    forall i, j | 0 <= i < j < |chain| :: chain[i].vfile != chain[j].vfile
  }

  lemma RemovedDistinct(was: seq<Node>, i: nat)
    requires i < |was| && Distinct(was)
    ensures Distinct(Without(was, i)) && was[i] !in Without(was, i)
  {
  }

  lemma RemovedMembers(was: seq<Node>, i: nat)
    requires 0 < i < |was| && Distinct(was)
    ensures forall n :: n in Without(was, i) <==> n in was && n != was[i]
    ensures was[0] in Without(was, i)
    ensures i + 1 < |was| ==> was[i + 1] != was[0] && was[i + 1] in Without(was, i)
  {
    assert was == was[..i] + [was[i]] + was[i + 1..];
    assert was[..i][0] == was[0];
    if i + 1 < |was| { assert was[i + 1..][0] == was[i + 1]; }
  }

  /** A node linked in front of a chain; the old head's back link is NULL or leads to it. */
  lemma Prepended(was: seq<Node>, m: Node)
    requires Distinct(was) && m !in was && m.next == At(was, 0) && m.previous == null
    requires forall i | 0 <= i < |was| :: was[i].next == At(was, i + 1)
    requires forall i | 0 <= i < |was| ::
               was[i].previous == null || was[i].previous == if i == 0 then m else At(was, i - 1)
    ensures Chained([m] + was)
  {
    var chain := [m] + was;
    forall j | 0 <= j < |chain|
      ensures chain[j].next == At(chain, j + 1)
      ensures chain[j].previous == null || chain[j].previous == At(chain, j - 1)
    {
      if j > 0 {
        assert chain[j] == was[j - 1];
        assert At(chain, j + 1) == At(was, j) && At(chain, j - 1) == if j == 1 then m else At(was, j - 2);
      }
    }
    forall j, k | 0 <= j < k < |chain|
      ensures chain[j] != chain[k]
    {
      assert chain[k] == was[k - 1] && was[k - 1] in was;
      if j > 0 { assert chain[j] == was[j - 1]; }
    }
  }

  twostate lemma ChainStays(chain: seq<Node>)
    requires old(Chained(chain))
    requires forall n | n in chain :: n.next == old(n.next) && n.previous == old(n.previous)
    ensures Chained(chain)
  {
    forall i | 0 <= i < |chain|
      ensures chain[i].next == At(chain, i + 1)
      ensures chain[i].previous == null || chain[i].previous == At(chain, i - 1)
    {
      assert chain[i] in chain;
    }
  }

  class Bucket {
    var count: nat
    var contents: Node?
    /** The nodes along the `md_next` links, in order. */
    ghost var chain: seq<Node>

    /** The links run through the chain and end. The counter is never decreased. */
    ghost predicate Valid()
      reads this, chain`next, chain`previous
    {
      contents == At(chain, 0) && Chained(chain) && |chain| <= count
    }

    constructor ()
      ensures Valid() && chain == []
    {
      count, contents, chain := 0, null, [];
    }

    /** The walk along the links. */
    method Walk(vpath: string) returns (metadata: Node?)
      requires Valid()
      ensures metadata == if Find(chain, vpath) < 0 then null else chain[Find(chain, vpath)]
    {
      hide Find, Distinct;
      metadata := contents;
      ghost var i := 0;
      while metadata != null && metadata.vfile != vpath
        invariant 0 <= i <= |chain|
        invariant metadata == At(chain, i)
        invariant forall j | 0 <= j < i :: chain[j].vfile != vpath
        decreases |chain| - i
      {
        metadata := metadata.next;
        i := i + 1;
      }
    }

    lemma BackLink(i: nat)
      requires Valid() && i < |chain| && chain[i].previous != null
      ensures i > 0 && chain[i].previous == chain[i - 1]
    {
    }

    /** Taking a node that has a back link out of the list. */
    method Disconnect(metadata: Node, ghost i: nat)
      requires Valid() && 0 < i < |chain| && chain[i] == metadata && metadata.previous == chain[i - 1]
      modifies this`chain, chain`next, chain`previous
      ensures Valid() && chain == Without(old(chain), i)
      ensures |chain| < count && metadata !in chain
      ensures i + 1 < |old(chain)| ==> old(chain)[i + 1].previous == old(chain)[i - 1]
      ensures forall n | n in old(chain) && n != At(old(chain), i + 1) :: n.previous == old(n.previous)
    {
      ghost var was := chain;
      RemovedDistinct(was, i);
      assert was[i - 1] in was && was[i] in was;
      metadata.previous.next := metadata.next;
      if metadata.next != null {
        assert metadata.next == was[i + 1] && was[i + 1] in was;
        metadata.next.previous := metadata.previous;
      }
      chain := Without(was, i);
      forall j | 0 <= j < |chain|
        ensures chain[j].next == At(chain, j + 1)
        ensures chain[j].previous == null || chain[j].previous == At(chain, j - 1)
      {
        if j < i {
          assert chain[j] == was[j];
          assert j > 0 ==> chain[j - 1] == was[j - 1];
          assert j < i - 1 ==> chain[j + 1] == was[j + 1] && was[j] != was[i - 1];
        } else {
          assert chain[j] == was[j + 1] && was[i - 1] != was[j + 1];
          assert chain[j - 1] == if j == i then was[i - 1] else was[j];
        }
      }
    }

    /** Putting it back on top. The old head's back link is set to NULL, not to the new head. */
    method Reconnect(metadata: Node)
      requires Valid() && contents != null && metadata !in chain && |chain| < count
      modifies this`contents, this`chain, metadata`next, metadata`previous, chain`previous
      ensures Valid() && chain == [metadata] + old(chain)
      ensures metadata.previous == null && old(contents).previous == null
      ensures forall n | n in old(chain) && n != old(contents) :: n.previous == old(n.previous)
    {
      ghost var was := chain;
      metadata.previous := null;
      metadata.next := contents;
      contents.previous := null;
      contents := metadata;
      chain := [metadata] + was;
      Prepended(was, metadata);
    }

    method Bump(metadata: Node, ghost i: nat)
      requires Valid() && 0 < i < |chain| && chain[i] == metadata && metadata.previous == chain[i - 1]
      modifies this`contents, this`chain, chain`next, chain`previous
      ensures Valid() && chain == MovedToFront(old(chain), i)
      ensures metadata.previous == null && old(contents).previous == null
      ensures i + 1 < |old(chain)| ==> old(chain)[i + 1].previous == old(chain)[i - 1]
      ensures forall n | n in old(chain) && n != old(contents) && n != metadata && n != At(old(chain), i + 1) ::
                n.previous == old(n.previous)
    {
      ghost var was := chain;
      assert contents == was[0] && metadata in was;
      RemovedMembers(was, i);
      hide Chained, Distinct, Find, UniqueKeys, Without;
      Disconnect(metadata, i);
      Reconnect(metadata);
    }

    /**
     `cache_get_metadata` within its bucket. A hit with a back link moves to the front; a hit without one
     stays where it is, even if it is not the head.
     */
    method Get(vpath: string) returns (metadata: Node?)
      requires Valid()
      modifies this`contents, this`chain, chain`next, chain`previous
      ensures Valid()
      ensures Find(old(chain), vpath) < 0 ==> metadata == null && chain == old(chain)
      ensures Find(old(chain), vpath) >= 0 ==> metadata == old(chain)[Find(old(chain), vpath)]
      ensures Find(old(chain), vpath) >= 0 ==>
                chain == if old(metadata.previous) == null then old(chain)
                         else MovedToFront(old(chain), Find(old(chain), vpath))
      ensures metadata != null && old(metadata.previous) != null ==>
                metadata.previous == null && old(contents).previous == null
    {
      metadata := Walk(vpath);
      if metadata == null || metadata.previous == null { return; }
      BackLink(Find(chain, vpath));
      Bump(metadata, Find(chain, vpath));
    }

    /** `cache_add_metadata` within its bucket */
    method Add(metadata: Node)
      requires Valid() && metadata !in chain
      modifies this, metadata`next, metadata`previous, chain`previous
      ensures Valid() && chain == [metadata] + old(chain) && count == old(count) + 1
      ensures metadata.previous == null && (old(contents) != null ==> old(contents).previous == metadata)
      ensures forall n | n in old(chain) && n != old(contents) :: n.previous == old(n.previous)
    {
      ghost var was := chain;
      metadata.previous := null;
      metadata.next := contents;
      if contents != null {
        assert contents == was[0] && was[0] in was;
        contents.previous := metadata;
      }
      contents := metadata;
      count := count + 1;
      chain := [metadata] + was;
      Prepended(was, metadata);
    }

    /** `cache_drop_metadata`: the whole chain is let go. */
    method Drop()
      requires Valid()
      modifies this`contents, this`chain
      ensures Valid() && chain == []
    {
      contents := null;
      chain := [];
    }
  }

  // ----- the table -----

  const CACHE_HASH_BUCKETS: nat := 128

  /** `helper_hash_string`: the exclusive or of the characters, as 8-bit numbers. */
  function HashString(s: string): bv8 {
    if s == "" then 0 else HashString(s[..|s| - 1]) ^ ((s[|s| - 1] as int % 0x100) as bv8)
  }

  /** `CACHE_HASH` */
  function Hash(s: string): (h: nat)
    ensures h < CACHE_HASH_BUCKETS
  {
    HashString(s) as int % CACHE_HASH_BUCKETS
  }

  /** The order of the characters does not matter to the hash. */
  lemma HashOfParts(a: string, b: string)
    ensures HashString(a + b) == HashString(a) ^ HashString(b)
    ensures Hash(a + b) == Hash(b + a)
  {
    HashConcat(a, b);
    HashConcat(b, a);
  }

  lemma {:induction false} HashConcat(a: string, b: string)
    ensures HashString(a + b) == HashString(a) ^ HashString(b)
    decreases |b|
  {
    if b == "" {
      assert a + b == a;
    } else {
      var n := |b| - 1;
      assert (a + b)[..|a + b| - 1] == a + b[..n];
      HashConcat(a, b[..n]);
    }
  }

  lemma MovedMembers(chain: seq<Node>, i: nat)
    requires i < |chain|
    ensures forall n :: n in MovedToFront(chain, i) <==> n in chain
  {
    assert chain == chain[..i] + [chain[i]] + chain[i + 1..];
  }

  lemma MovedUnique(chain: seq<Node>, i: nat)
    requires i < |chain| && UniqueKeys(chain)
    ensures UniqueKeys(MovedToFront(chain, i))
  {
    var moved := MovedToFront(chain, i);
    forall j, k | 0 <= j < k < |moved|
      ensures moved[j].vfile != moved[k].vfile
    {
      var a := if j == 0 then i else if j <= i then j - 1 else j;
      var b := if k <= i then k - 1 else k;
      assert moved[j] == chain[a] && moved[k] == chain[b] && a != b;
      assert if a < b then chain[a].vfile != chain[b].vfile else chain[b].vfile != chain[a].vfile;
    }
  }

  lemma OneMoreKey(was: seq<Node>, m: Node)
    requires UniqueKeys(was) && forall n | n in was :: n.vfile != m.vfile
    ensures UniqueKeys([m] + was) && forall n | n in [m] + was :: n == m || n in was
  {
    assert forall i | 0 <= i < |was| :: was[i] in was && ([m] + was)[i + 1] == was[i];
  }

  /** A lookup neither adds nor loses a node. */
  lemma SameMembers(was: seq<Node>, chain: seq<Node>, vpath: string)
    requires UniqueKeys(was)
    requires chain == was || (Find(was, vpath) >= 0 && chain == MovedToFront(was, Find(was, vpath)))
    ensures UniqueKeys(chain) && forall n :: n in chain <==> n in was
  {
    hide UniqueKeys, MovedToFront, Find;
    if chain != was {
      MovedMembers(was, Find(was, vpath));
      MovedUnique(was, Find(was, vpath));
    }
  }

  class Cache {
    /** The buckets are fixed; only what is in them changes. */
    const table: seq<Bucket>
    var itemCount: nat
    ghost var Nodes: set<Node>
    /** What a lookup finds. */
    ghost var Entries: map<string, Metadata>

    constructor (table: seq<Bucket>)
      requires |table| == CACHE_HASH_BUCKETS
      requires forall i, j | 0 <= i < j < |table| :: table[i] != table[j]
      requires forall i | 0 <= i < |table| :: table[i].Valid() && table[i].chain == []
      ensures Valid() && this.table == table && Nodes == {} && Entries == map[]
    {
      this.table, itemCount, Nodes, Entries := table, 0, {}, map[];
    }

    /** The bucket is a chain of known nodes of its own hash value, and no name occurs twice in it. */
    ghost predicate BucketOk(h: nat)
      requires h < |table|
      reads this`Nodes, table[h], table[h].chain`next, table[h].chain`previous
    {
      && table[h].Valid() && UniqueKeys(table[h].chain)
      && forall n | n in table[h].chain :: n in Nodes && Hash(n.vfile) == h
    }

    ghost predicate Shape()
      reads this`Nodes, table, Nodes`next, Nodes`previous
    {
      && |table| == CACHE_HASH_BUCKETS
      && (forall i, j | 0 <= i < j < |table| :: table[i] != table[j])
      && (forall h | 0 <= h < |table| :: (forall n | n in table[h].chain :: n in Nodes) && BucketOk(h))
      && (forall n | n in Nodes :: n in table[Hash(n.vfile)].chain)
    }

    /** The entries are what the known nodes carry. */
    ghost predicate Named()
      reads this`Nodes, this`Entries, Nodes`md
    {
      && Entries.Keys == (set n | n in Nodes :: n.vfile)
      && (forall n | n in Nodes :: Entries[n.vfile] == n.md)
    }

    ghost predicate Valid()
      reads this`Nodes, this`Entries, table, Nodes
    {
      Shape() && Named()
    }

    lemma Known(n: Node)
      requires Valid() && n in Nodes
      ensures n.vfile in Entries && Entries[n.vfile] == n.md
    {
    }

    lemma OthersDisjoint(h: nat)
      requires Shape() && h < |table|
      ensures forall j | 0 <= j < |table| && j != h :: forall n | n in table[j].chain :: n !in table[h].chain
    {
    }

    twostate lemma Stays(j: nat)
      requires j < |table| && old(BucketOk(j)) && unchanged(table[j]) && old(Nodes) <= Nodes
      requires forall n | n in old(table[j].chain) :: n.next == old(n.next) && n.previous == old(n.previous)
      ensures BucketOk(j)
    {
      hide Chained, Hash, HashString, At, UniqueKeys;
      ChainStays(table[j].chain);
    }

    /** A lookup in one bucket. */
    method GetAt(h: nat, vpath: string) returns (metadata: Node?)
      requires h < |table| && BucketOk(h)
      modifies table[h], table[h].chain`next, table[h].chain`previous
      ensures BucketOk(h) && forall n :: n in table[h].chain <==> n in old(table[h].chain)
      ensures metadata == null ==> forall n | n in table[h].chain :: n.vfile != vpath
      ensures metadata != null ==> metadata in table[h].chain && metadata.vfile == vpath
    {
      hide Chained, Hash, HashString, At, Find, UniqueKeys, MovedToFront;
      ghost var was := table[h].chain;
      metadata := table[h].Get(vpath);
      SameMembers(was, table[h].chain, vpath);
    }

    /** `cache_get_metadata`: finds what is there and changes nothing but the order of one chain. */
    method Get(vpath: string) returns (metadata: Node?)
      requires Valid()
      modifies table, Nodes`next, Nodes`previous
      ensures Valid()
      ensures metadata == null <==> vpath !in Entries
      ensures metadata != null ==> metadata in Nodes && metadata.vfile == vpath && metadata.md == Entries[vpath]
    {
      var h := Hash(vpath);
      hide BucketOk, Hash, HashString;
      OthersDisjoint(h);
      assert BucketOk(h);
      metadata := GetAt(h, vpath);
      forall j | 0 <= j < |table| && j != h
        ensures BucketOk(j) && table[j].chain == old(table[j].chain)
      {
        assert old(BucketOk(j)) && table[j] != table[h] && unchanged(table[j]);
        assert forall n | n in old(table[j].chain) :: unchanged(n);
        Stays(j);
      }
    }

    /** `cache_add_metadata`, for a name that is not there yet. */
    method Add(metadata: Node)
      requires Valid() && metadata !in Nodes && metadata.vfile !in Entries
      modifies this`itemCount, this`Nodes, this`Entries, table, metadata`next, metadata`previous, Nodes`previous
      ensures Valid() && Nodes == old(Nodes) + {metadata}
      ensures Entries == old(Entries)[metadata.vfile := metadata.md] && itemCount == old(itemCount) + 1
    {
      hide Shape;
      Insert(metadata);
      itemCount := itemCount + 1;
      Entries := Entries[metadata.vfile := metadata.md];
    }

    method Insert(metadata: Node)
      requires Shape() && metadata !in Nodes && forall n | n in Nodes :: n.vfile != metadata.vfile
      modifies this`Nodes, table, metadata`next, metadata`previous, Nodes`previous
      ensures Shape() && Nodes == old(Nodes) + {metadata}
    {
      var h := Hash(metadata.vfile);
      hide BucketOk, Hash, HashString;
      OthersDisjoint(h);
      assert BucketOk(h);
      Nodes := Nodes + {metadata};
      AddAt(h, metadata);
      forall j | 0 <= j < |table| && j != h
        ensures BucketOk(j) && table[j].chain == old(table[j].chain)
      {
        assert old(BucketOk(j)) && table[j] != table[h] && unchanged(table[j]);
        assert forall n | n in old(table[j].chain) :: unchanged(n);
        Stays(j);
      }
      forall n | n in Nodes
        ensures n in table[Hash(n.vfile)].chain
      {
        if n != metadata { assert n in old(table[Hash(n.vfile)].chain); }
      }
    }

    method AddAt(h: nat, metadata: Node)
      requires h < |table| && metadata in Nodes && metadata !in table[h].chain && Hash(metadata.vfile) == h
      requires BucketOk(h) && forall n | n in table[h].chain :: n.vfile != metadata.vfile
      modifies table[h], metadata`next, metadata`previous, table[h].chain`previous
      ensures BucketOk(h) && table[h].chain == [metadata] + old(table[h].chain)
    {
      hide Chained, Hash, HashString, At, UniqueKeys;
      ghost var was := table[h].chain;
      assert metadata !in was;
      table[h].Add(metadata);
      OneMoreKey(was, metadata);
    }

    /** `cache_drop_metadata` lets go of every name that shares the bucket. */
    method Drop(vpath: string)
      requires Valid()
      modifies this`Nodes, this`Entries, table
      ensures Valid() && Nodes <= old(Nodes)
      ensures Entries == map k | k in old(Entries) && Hash(k) != Hash(vpath) :: old(Entries)[k]
    {
      var h := Hash(vpath);
      ghost var was := Nodes;
      hide Shape, Hash, HashString;
      InBucket(h);
      DropAt(h);
      assert forall n | n in was :: n in Nodes <==> Hash(n.vfile) != h;
      Entries := map k | k in Entries && Hash(k) != h :: Entries[k];
    }

    lemma InBucket(h: nat)
      requires Shape() && h < CACHE_HASH_BUCKETS
      ensures |table| == CACHE_HASH_BUCKETS
      ensures forall n | n in Nodes :: n in table[h].chain <==> Hash(n.vfile) == h
    {
    }

    method DropAt(h: nat)
      requires Shape() && h < |table|
      modifies this`Nodes, table
      ensures Shape() && Nodes == old(Nodes) - set n | n in old(table[h].chain)
    {
      hide BucketOk, Hash, HashString;
      OthersDisjoint(h);
      assert BucketOk(h);
      ghost var was := Nodes;
      DropBucket(h);
      Nodes := Nodes - set n | n in old(table[h].chain);
      forall j | 0 <= j < |table|
        ensures BucketOk(j)
      {
        if j == h {
          EmptyOk(h);
        } else {
          assert old(BucketOk(j)) && table[j] != table[h] && unchanged(table[j]);
          Shrinks(j);
        }
      }
    }

    method DropBucket(h: nat)
      requires h < |table| && BucketOk(h)
      modifies table[h]
      ensures table[h].Valid() && table[h].chain == []
    {
      table[h].Drop();
    }

    lemma EmptyOk(h: nat)
      requires h < |table| && table[h].Valid() && table[h].chain == []
      ensures BucketOk(h)
    {
    }

    twostate lemma Shrinks(j: nat)
      requires j < |table| && old(BucketOk(j)) && unchanged(table[j])
      requires forall n | n in old(table[j].chain) :: unchanged(n) && n in Nodes
      ensures BucketOk(j)
    {
      hide Chained, Hash, HashString, At, UniqueKeys;
      ChainStays(table[j].chain);
    }

    /** Changing a cached block in place, as the callbacks do. */
    method SetBlock(metadata: Node, md: Metadata)
      requires Valid() && metadata in Nodes
      modifies metadata`md, this`Entries
      ensures Valid() && Entries == old(Entries)[metadata.vfile := md]
    {
      hide Shape, Named;
      OnlyNode(metadata);
      Entries := Entries[metadata.vfile := md];
      metadata.md := md;
      StillNamed(metadata);
      StillShaped();
    }

    twostate lemma StillShaped()
      requires old(Shape()) && unchanged(this`Nodes)
      requires forall b | b in table :: unchanged(b)
      requires forall n | n in Nodes :: n.next == old(n.next) && n.previous == old(n.previous)
      ensures Shape()
    {
      hide BucketOk, Hash, HashString;
      forall h | 0 <= h < |table|
        ensures BucketOk(h) && table[h].chain == old(table[h].chain)
      {
        assert old(BucketOk(h)) && table[h] in table && unchanged(table[h]);
        Stays(h);
      }
    }

    twostate lemma StillNamed(metadata: Node)
      requires old(Named()) && metadata in Nodes && Nodes == old(Nodes)
      requires forall n | n in Nodes && n.vfile == metadata.vfile :: n == metadata
      requires forall n | n in Nodes && n != metadata :: n.md == old(n.md)
      requires Entries == old(Entries)[metadata.vfile := metadata.md]
      ensures Named()
    {
    }

    /** No other known node carries the name. */
    lemma OnlyNode(m: Node)
      requires Shape() && m in Nodes
      ensures forall n | n in Nodes && n.vfile == m.vfile :: n == m
    {
      hide Chained, HashString;
      forall n | n in Nodes && n.vfile == m.vfile
        ensures n == m
      {
        var h := Hash(m.vfile);
        assert BucketOk(h);
        var chain := table[h].chain;
        var i, j :| 0 <= i < |chain| && 0 <= j < |chain| && chain[i] == m && chain[j] == n;
      }
    }
  }

  /** `cache_initialize` */
  method NewTable() returns (table: seq<Bucket>)
    ensures |table| == CACHE_HASH_BUCKETS
    ensures forall i, j | 0 <= i < j < |table| :: table[i] != table[j]
    ensures forall i | 0 <= i < |table| :: fresh(table[i]) && table[i].Valid() && table[i].chain == []
  {
    table := [];
    while |table| < CACHE_HASH_BUCKETS
      invariant |table| <= CACHE_HASH_BUCKETS
      invariant forall i, j | 0 <= i < j < |table| :: table[i] != table[j]
      invariant forall i | 0 <= i < |table| :: fresh(table[i]) && table[i].Valid() && table[i].chain == []
      decreases CACHE_HASH_BUCKETS - |table|
    {
      var b := new Bucket();
      table := table + [b];
    }
  }
}
