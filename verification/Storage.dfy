/** Simulated DRAM contents: rows allocated on demand, in a hash table of rings. */
module StorageBackEnd {
  import opened DramBanks
  import opened StorageElements

  const BUCKETS: nat := 1024

  /** 32-bit words in one row of one bank. */
  const ROW_WORDS: nat := 2048

  /** Bucket of a row: seven low row bits above the bank. */
  function Entry(bank: nat, row: nat): (h: nat)
    requires bank < BANKS
    ensures h < BUCKETS && h % BANKS == bank && h / BANKS == row % 128
  {
    row % 128 * BANKS + bank
  }

  /** A memory cell; rows that were never touched have no contents. */
  datatype Cell = Absent | Holds(value: int)

  /** Position of a row in a ring, or its length. */
  ghost function Position(s: seq<StorageElem>, row: nat): (i: nat)
    ensures i <= |s|
    ensures i < |s| ==> s[i].row == row
    ensures forall j :: 0 <= j < i ==> s[j].row != row
  {
    if s == [] || s[0].row == row then 0 else Position(s[1..], row) + 1
  }

  lemma {:induction false} PositionAppend(s: seq<StorageElem>, e: StorageElem, row: nat)
    ensures Position(s + [e], row) ==
              if Position(s, row) < |s| then Position(s, row) else if e.row == row then |s| else |s| + 1
  {
    if s == [] {
      assert s + [e] == [e];
      assert [e][1..] == [];
    } else {
      assert (s + [e])[1..] == s[1..] + [e];
      PositionAppend(s[1..], e, row);
    }
  }

  class Storage {
    const hashmap: array<StorageElem?>
    ghost var rings: seq<seq<StorageElem>>
    ghost var elems: set<StorageElem>

    ghost function Data(): set<object>
      reads `elems
    {
      set e | e in elems :: e.data
    }

    ghost predicate Bucket(h: nat)
      reads this, hashmap, elems
      requires h < |rings| && h < hashmap.Length
    {
      && (forall e :: e in rings[h] ==> e in elems && e.bucket == h && e.row % 128 == h / BANKS)
      && Ring(rings[h])
      && hashmap[h] == (if rings[h] == [] then null else rings[h][0])
      && forall i, j :: 0 <= i < j < |rings[h]| ==> rings[h][i].row != rings[h][j].row
    }

    /** Well-formed rings without duplicate rows; every row has memory of its own. */
    ghost predicate Valid()
      reads this, hashmap, elems
    {
      && |rings| == hashmap.Length == BUCKETS
      && (forall h :: 0 <= h < BUCKETS ==> Bucket(h))
      && (forall e :: e in elems ==> e.data.Length == ROW_WORDS && e.bucket < BUCKETS && e in rings[e.bucket])
      && forall e, f :: e in elems && f in elems && e.data == f.data ==> e == f
    }

    /** The flat memory this stands for. */
    ghost function Word(bank: nat, row: nat, offset: nat): Cell
      reads this, hashmap, elems, Data()
      requires Valid() && bank < BANKS && offset < ROW_WORDS
    {
      var s := rings[Entry(bank, row)];
      var i := Position(s, row);
      if i < |s| then
        assert Bucket(Entry(bank, row));
        Holds(s[i].data[offset])
      else Absent
    }

    constructor ()
      ensures Valid() && fresh(this) && fresh(hashmap) && elems == {}
      ensures forall b, r, o :: 0 <= b < BANKS && 0 <= r && 0 <= o < ROW_WORDS ==> Word(b, r, o) == Absent
    {
      hashmap := new StorageElem?[BUCKETS](_ => null);
      rings := seq(BUCKETS, _ => []);
      elems := {};
    }

    /** Looking a row up changes no cell that has contents. */
    twostate predicate Keeps(bank: nat, row: nat, offset: nat)
      reads this, hashmap, elems, Data()
      requires Valid() && old(Valid()) && bank < BANKS && offset < ROW_WORDS
    {
      old(Word(bank, row, offset)) == Absent || Word(bank, row, offset) == old(Word(bank, row, offset))
    }

    method EnsureRow(bank: nat, row: nat) returns (ptr: StorageElem)
      requires Valid() && bank < BANKS
      modifies this, hashmap, elems
      ensures Valid() && ptr in rings[Entry(bank, row)] && ptr.row == row && ptr in elems
      ensures elems == old(elems) + {ptr} && fresh(elems - old(elems)) && fresh(Data() - old(Data()))
      ensures var h := Entry(bank, row);
              if ptr in old(elems) then rings == old(rings)
              else fresh(ptr) && fresh(ptr.data) && Position(old(rings)[h], row) == |old(rings)[h]|
                   && rings == old(rings)[h := old(rings)[h] + [ptr]]
      ensures forall o :: 0 <= o < ROW_WORDS ==> Word(bank, row, o) == Holds(ptr.data[o])
      ensures forall b, r, o :: 0 <= b < BANKS && 0 <= r && 0 <= o < ROW_WORDS ==>
                old(Word(b, r, o)) == Absent || Word(b, r, o) == old(Word(b, r, o))
    {
      hide Ring, Position;
      var entry := row % 128 * BANKS + bank;
      var found := FindRow(entry, row);
      if found != null {
        ptr := found;
        assert Bucket(entry);
      } else {
        var data := new int[ROW_WORDS];
        ptr := new StorageElem(row, data, entry);
        ghost var s := rings[entry];
        Insert(entry, ptr);
        PositionAppend(s, ptr, row);
        forall b, r, o | 0 <= b < BANKS && 0 <= r && 0 <= o < ROW_WORDS
          ensures old(Word(b, r, o)) == Absent || Word(b, r, o) == old(Word(b, r, o))
        {
          PositionAppend(s, ptr, r);
          assert Bucket(Entry(b, r));
        }
      }
      Found(bank, row, ptr);
    }

    /** Once around the ring. */
    method FindRow(entry: nat, row: nat) returns (ptr: StorageElem?)
      requires Valid() && entry < BUCKETS
      ensures var s := rings[entry];
              if ptr == null then Position(s, row) == |s| && forall e :: e in s ==> e.row != row
              else Position(s, row) < |s| && ptr == s[Position(s, row)]
    {
      assert Bucket(entry);
      ghost var s := rings[entry];
      var head := hashmap[entry];
      ghost var n := 0;
      if head != null {
        ptr := head;
        while true
          invariant n < |s| && ptr == s[n] && forall i :: 0 <= i < n ==> s[i].row != row
          decreases |s| - n
        {
          if ptr.row == row {
            return;
          }
          ptr := ptr.next;
          n := n + 1;
          if ptr == head {
            break;
          }
        }
      }
      ptr := null;
    }

    lemma Found(bank: nat, row: nat, ptr: StorageElem)
      requires Valid() && bank < BANKS && ptr in rings[Entry(bank, row)] && ptr.row == row && ptr in elems
      ensures forall o :: 0 <= o < ROW_WORDS ==> Word(bank, row, o) == Holds(ptr.data[o])
    {
      assert Bucket(Entry(bank, row));
      var s := rings[Entry(bank, row)];
      var n :| 0 <= n < |s| && s[n] == ptr;
      assert Position(s, row) <= n;
    }

    method Insert(entry: nat, elem: StorageElem)
      requires Valid() && entry < BUCKETS && elem !in elems && elem.bucket == entry && elem.row % 128 == entry / BANKS
      requires elem.prev == elem.next == elem && !elem.freed && elem.data.Length == ROW_WORDS
      requires forall e :: e in rings[entry] ==> e.row != elem.row
      requires forall e :: e in elems ==> e.data != elem.data
      modifies this, hashmap, elems, elem
      ensures Valid() && elems == old(elems) + {elem}
      ensures rings == old(rings)[entry := old(rings)[entry] + [elem]]
    {
      hide Ring;
      ghost var s := rings[entry];
      assert Bucket(entry);
      Chain(entry, elem, s);
      rings := rings[entry := s + [elem]];
      elems := elems + {elem};
      forall h | 0 <= h < BUCKETS
        ensures Bucket(h)
      {
        assert old(Bucket(h));
        assert h != entry ==> forall e :: e in rings[h] ==> e !in s && e != elem;
      }
    }

    /** Put an element at the end of a bucket's ring. */
    method Chain(entry: nat, elem: StorageElem, ghost s: seq<StorageElem>)
      requires entry < hashmap.Length && Ring(s) && elem !in s && !elem.freed && elem.prev == elem.next == elem
      requires hashmap[entry] == if s == [] then null else s[0]
      modifies hashmap, s`next, s`prev, elem`next, elem`prev
      ensures Ring(s + [elem]) && hashmap[entry] == (s + [elem])[0]
      ensures forall h :: 0 <= h < hashmap.Length && h != entry ==> hashmap[h] == old(hashmap[h])
    {
      if hashmap[entry] == null {
        hashmap[entry] := elem;
        assert s + [elem] == [elem];
      } else {
        Append(hashmap[entry], elem, s);
      }
    }

    method GetWord(bank: nat, row: nat, col: nat, dqWord: nat) returns (value: int)
      requires Valid() && bank < BANKS && col < COLS && dqWord < 2
      modifies this, hashmap, elems
      ensures Valid()
      ensures Word(bank, row, col * 2 + dqWord) == Holds(value)
      ensures forall b, r, o :: 0 <= b < BANKS && 0 <= r && 0 <= o < ROW_WORDS ==> Keeps(b, r, o)
      ensures fresh(elems - old(elems)) && fresh(Data() - old(Data()))
    {
      var elem := EnsureRow(bank, row);
      var offset := col * 2 + dqWord;
      value := elem.data[offset];
    }

    method SetWord(bank: nat, row: nat, col: nat, dqWord: nat, value: int)
      requires Valid() && bank < BANKS && col < COLS && dqWord < 2
      modifies this, hashmap, elems, Data()
      ensures Valid()
      ensures Word(bank, row, col * 2 + dqWord) == Holds(value)
      ensures forall b, r, o ::
                (0 <= b < BANKS && 0 <= r && 0 <= o < ROW_WORDS && (b, r, o) != (bank, row, col * 2 + dqWord)) ==>
                  Keeps(b, r, o)
      ensures fresh(elems - old(elems)) && fresh(Data() - old(Data()))
    {
      hide Position, Bucket;
      var elem := EnsureRow(bank, row);
      label looked:
      SetData(elem, bank, row, col * 2 + dqWord, value);
      forall b, r, o | 0 <= b < BANKS && 0 <= r && 0 <= o < ROW_WORDS && (b, r, o) != (bank, row, col * 2 + dqWord)
        ensures Keeps(b, r, o)
      {
        assert Word(b, r, o) == old@looked(Word(b, r, o));
      }
    }

    method SetData(elem: StorageElem, ghost bank: nat, ghost row: nat, offset: nat, value: int)
      requires Valid() && bank < BANKS && offset < ROW_WORDS
      requires elem in elems && elem in rings[Entry(bank, row)] && elem.row == row
      modifies elem.data
      ensures Valid() && Word(bank, row, offset) == Holds(value)
      ensures forall b, r, o ::
                (0 <= b < BANKS && 0 <= r && 0 <= o < ROW_WORDS && (b, r, o) != (bank, row, offset)) ==>
                  Word(b, r, o) == old(Word(b, r, o))
    {
      hide Ring, Position;
      elem.data[offset] := value;
      forall h | 0 <= h < BUCKETS
        ensures Bucket(h)
      {
        assert old(Bucket(h));
      }
      Found(bank, row, elem);
      forall b, r, o | 0 <= b < BANKS && 0 <= r && 0 <= o < ROW_WORDS && (b, r, o) != (bank, row, offset)
        ensures Word(b, r, o) == old(Word(b, r, o))
      {
        var s := rings[Entry(b, r)];
        assert Bucket(Entry(b, r)) && Bucket(Entry(bank, row));
        if Position(s, r) < |s| {
          var e := s[Position(s, r)];
          assert e in s && e in elems;
          assert e == elem ==> b == bank && r == row;
          assert e.data[o] == old(e.data[o]);
        }
      }
    }

    /** Every row is deleted, once. */
    method Destroy()
      requires Valid()
      modifies elems
      ensures forall e :: e in elems ==> e.freed
    {
      for i := 0 to BUCKETS
        invariant forall h :: i <= h < BUCKETS ==> Bucket(h)
        invariant forall h :: 0 <= h < i ==> forall e :: e in rings[h] ==> e.freed
      {
        assert Bucket(i);
        if hashmap[i] != null {
          label before:
          DeleteRing(hashmap[i], rings[i]);
          forall h | i + 1 <= h < BUCKETS
            ensures Bucket(h)
          {
            assert old@before(Bucket(h));
            assert forall e :: e in rings[h] ==> e !in rings[i];
          }
        }
      }
    }
  }
}
