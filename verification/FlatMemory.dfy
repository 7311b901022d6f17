/** The simulated DRAM as a flat memory of words. */
module FlatMemory {
  import opened Arith
  import opened DramBanks
  import opened StorageElements
  import opened StorageBackEnd

  /** Place of a word within its bank's row. */
  function Offset(a: nat): (o: nat)
    ensures o < ROW_WORDS
  {
    a / 32 % 128 * 16 + a % 16
  }

  /** Bank, row and offset together determine the address. */
  lemma OnePlace(a: nat, b: nat)
    requires a < ADDRESSES && b < ADDRESSES
    requires BankOf(a) == BankOf(b) && RowOf(a) == RowOf(b) && Offset(a) == Offset(b)
    ensures a == b
  {
    KeyDecides(a, b);
    assert a / 16 % 2 == b / 16 % 2;
    assert a / 32 % 128 == b / 32 % 128 && a % 16 == b % 16;
    Digits(a);
    Digits(b);
  }

  lemma Digits(a: nat)
    ensures a == KeyOf(a) * 4096 + a / 32 % 128 * 32 + a / 16 % 2 * 16 + a % 16
  {
    assert a / 16 / 2 == a / 32 && a / 32 / 128 == a / 4096;
    assert a == a / 16 * 16 + a % 16;
    assert a / 16 == a / 16 / 2 * 2 + a / 16 % 2;
    assert a / 32 == a / 32 / 128 * 128 + a / 32 % 128;
  }

  /** The word at a place: row, bank pair, burst in the row, bank of the pair, word of the burst. */
  function AddressAt(row: nat, pair: nat, burst: nat, low: nat, word: nat): nat {
    (((row * 4 + pair) * 128 + burst) * 2 + low) * 16 + word
  }

  /** The translation and its inverse: consecutive bursts go to the two banks of a pair in turn, a row of
      both banks holds 4096 words, and the next 4096 words are in the next pair. */
  lemma AddressBits(row: nat, pair: nat, burst: nat, low: nat, word: nat)
    requires row < ROWS && pair < 4 && burst < 128 && low < 2 && word < 16
    ensures var a := AddressAt(row, pair, burst, low, word);
            && a < ADDRESSES && BankOf(a) == 2 * pair + low && RowOf(a) == row && ColOf(a) == burst * 8
            && Offset(a) == burst * 16 + word
  {
    var key := row * 4 + pair;
    var b := key * 128 + burst;
    var h := b * 2 + low;
    var a := h * 16 + word;
    DivModUnique(a, 16, h, word);
    DivModUnique(h, 2, b, low);
    DivModUnique(a, 32, b, low * 16 + word);
    DivModUnique(b, 128, key, burst);
    DivModUnique(a, 4096, key, burst * 32 + low * 16 + word);
    DivModUnique(key, 4, row, pair);
  }

  lemma EveryAddress(a: nat)
    requires a < ADDRESSES
    ensures a == AddressAt(RowOf(a), BankOf(a) / 2, ColOf(a) / 8, BankOf(a) % 2, a % 16)
    ensures RowOf(a) < ROWS && BankOf(a) / 2 < 4 && ColOf(a) / 8 < 128
  {
    Digits(a);
    assert KeyOf(a) == KeyOf(a) / 4 * 4 + KeyOf(a) % 4 && KeyOf(a) / 4 < ROWS;
  }

  /** The words of a burst share bank and row; the data queue's column and half address them. */
  lemma WordOfBurst(burst: nat, n: nat)
    requires burst % 16 == 0 && n < 16
    ensures BankOf(burst + n) == BankOf(burst) && RowOf(burst + n) == RowOf(burst)
    ensures ColOf(burst) + n / 2 < COLS && Offset(burst + n) == (ColOf(burst) + n / 2) * 2 + n % 2
  {
    assert (burst + n) / 16 == burst / 16;
    assert (burst + n) / 32 == burst / 32;
    assert (burst + n) / 4096 == burst / 4096;
  }

  ghost function At(store: Storage, a: nat): Cell
    reads store, store.hashmap, store.elems, store.Data()
    requires store.Valid()
  {
    store.Word(BankOf(a), RowOf(a), Offset(a))
  }

  datatype MemOp = Set(a: nat, v: int) | Get(a: nat)

  /** What the first n operations leave at a. */
  function LastSet(ops: seq<MemOp>, n: nat, a: nat): Cell
    requires n <= |ops|
  {
    if n == 0 then Absent
    else if ops[n - 1].Set? && ops[n - 1].a == a then Holds(ops[n - 1].v)
    else LastSet(ops, n - 1, a)
  }

  /** Any sequence of accesses: a word that has been written reads as last written. */
  method Replay(ops: seq<MemOp>) returns (values: seq<int>)
    requires forall i :: 0 <= i < |ops| ==> ops[i].a < ADDRESSES
    ensures |values| == |ops|
    ensures forall i :: 0 <= i < |ops| && ops[i].Get? && LastSet(ops, i, ops[i].a).Holds? ==>
              values[i] == LastSet(ops, i, ops[i].a).value
  {
    hide Position, BankOf, RowOf, Offset, At;
    var store := new Storage();
    values := [];
    for i := 0 to |ops|
      invariant store.Valid() && fresh(store) && fresh(store.hashmap) && fresh(store.elems) && fresh(store.Data())
      invariant |values| == i
      invariant forall k :: 0 <= k < i && ops[k].Get? && LastSet(ops, k, ops[k].a).Holds? ==>
                  values[k] == LastSet(ops, k, ops[k].a).value
      invariant forall a :: 0 <= a < ADDRESSES && LastSet(ops, i, a).Holds? ==> At(store, a) == LastSet(ops, i, a)
    {
      var v := Apply(store, ops[i]);
      values := values + [v];
    }
  }

  method Apply(store: Storage, op: MemOp) returns (v: int)
    requires store.Valid() && op.a < ADDRESSES
    modifies store, store.hashmap, store.elems, store.Data()
    ensures store.Valid()
    ensures op.Get? && old(At(store, op.a)).Holds? ==> old(At(store, op.a)) == Holds(v)
    ensures forall x :: 0 <= x < ADDRESSES ==>
              if op.Set? && op.a == x then At(store, x) == Holds(op.v)
              else old(At(store, x)) == Absent || At(store, x) == old(At(store, x))
    ensures fresh(store.elems - old(store.elems)) && fresh(store.Data() - old(store.Data()))
  {
    hide At, BankOf, RowOf, ColOf, Offset;
    var n := op.a % 16;
    var burst := op.a - n;
    WordOfBurst(burst, n);
    match op {
      case Set(a, x) =>
        v := x;
        SetAt(store, BankOf(burst), RowOf(burst), ColOf(burst) + n / 2, n % 2, x, a);
      case Get(a) =>
        v := GetAt(store, BankOf(burst), RowOf(burst), ColOf(burst) + n / 2, n % 2, a);
    }
  }

  /** The place the data queue forms is that of word a. */
  predicate IsPlace(a: nat, bank: nat, row: nat, col: nat, dqWord: nat) {
    a < ADDRESSES && bank == BankOf(a) && row == RowOf(a) && col < COLS && dqWord < 2 && col * 2 + dqWord == Offset(a)
  }

  method GetAt(store: Storage, bank: nat, row: nat, col: nat, dqWord: nat, ghost a: nat) returns (v: int)
    requires store.Valid() && IsPlace(a, bank, row, col, dqWord)
    modifies store, store.hashmap, store.elems
    ensures store.Valid() && At(store, a) == Holds(v)
    ensures forall x :: 0 <= x < ADDRESSES ==> old(At(store, x)) == Absent || At(store, x) == old(At(store, x))
    ensures fresh(store.elems - old(store.elems)) && fresh(store.Data() - old(store.Data()))
  {
    hide Position, BankOf, RowOf, Offset;
    v := store.GetWord(bank, row, col, dqWord);
    forall x | 0 <= x < ADDRESSES
      ensures old(At(store, x)) == Absent || At(store, x) == old(At(store, x))
    {
      assert store.Keeps(BankOf(x), RowOf(x), Offset(x));
    }
  }

  method SetAt(store: Storage, bank: nat, row: nat, col: nat, dqWord: nat, v: int, ghost a: nat)
    requires store.Valid() && IsPlace(a, bank, row, col, dqWord)
    modifies store, store.hashmap, store.elems, store.Data()
    ensures store.Valid() && At(store, a) == Holds(v)
    ensures forall x :: 0 <= x < ADDRESSES && x != a ==>
              old(At(store, x)) == Absent || At(store, x) == old(At(store, x))
    ensures fresh(store.elems - old(store.elems)) && fresh(store.Data() - old(store.Data()))
  {
    hide Position, BankOf, RowOf, Offset;
    store.SetWord(bank, row, col, dqWord, v);
    forall x | 0 <= x < ADDRESSES && x != a
      ensures old(At(store, x)) == Absent || At(store, x) == old(At(store, x))
    {
      if BankOf(x) == BankOf(a) && RowOf(x) == RowOf(a) && Offset(x) == Offset(a) {
        OnePlace(x, a);
      }
      assert store.Keeps(BankOf(x), RowOf(x), Offset(x));
    }
  }
}
