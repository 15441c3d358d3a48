/**
 The list logic of the Barzanji schedule store: the records kept in the
 backing file, how a new id is chosen, how a path id is looked up, how a
 record is replaced and how records are filtered out. Everything here is
 a pure function of the loaded list; the handlers in module Handlers decide
 which of them to apply and what to write back.
 */
module Items {

  datatype Option<+T> = None | Some(value: T)

  /** One schedule record as stored in the backing file. */
  datatype Item = Item(id: int, nama: string, tanggal: string, alamat: string)

  /** The three user-supplied fields of a record, once validated. */
  datatype Fields = Fields(nama: string, tanggal: string, alamat: string)

  /** Strict equality against a path id; a path id that did not parse (NaN) matches nothing. */
  predicate Matches(item: Item, id: Option<int>)
  {
    id.Some? && item.id == id.value
  }

  predicate HasId(data: seq<Item>, id: Option<int>)
  {
    exists i :: 0 <= i < |data| && Matches(data[i], id)
  }

  /** Ids strictly increase along the list: the invariant the "last id + 1" rule relies on. */
  ghost predicate Increasing(data: seq<Item>)
  {
    forall i, j :: 0 <= i < j < |data| ==> data[i].id < data[j].id
  }

  ghost predicate UniqueIds(data: seq<Item>)
  {
    forall i, j :: 0 <= i < |data| && 0 <= j < |data| && i != j ==> data[i].id != data[j].id
  }

  lemma IncreasingIdsAreUnique(data: seq<Item>)
    requires Increasing(data)
    ensures UniqueIds(data)
  {
  }

  // ---------------------------------------------------------------------------
  // Create: the id of a new record and the append
  // ---------------------------------------------------------------------------

  /** The id given to a new record: the last record's id + 1, or 1 for an empty list. */
  function NextId(data: seq<Item>): (id: int)
    ensures Increasing(data) ==> forall i :: 0 <= i < |data| ==> data[i].id < id
  {
    if |data| > 0 then data[|data| - 1].id + 1 else 1
  }

  /** Under increasing ids, "last id + 1" is "largest id + 1". */
  lemma NextIdIsMaxPlusOne(data: seq<Item>)
    requires Increasing(data) && |data| > 0
    ensures exists i :: 0 <= i < |data| && data[i].id == NextId(data) - 1
    ensures forall i :: 0 <= i < |data| ==> data[i].id <= NextId(data) - 1
  {
    assert data[|data| - 1].id == NextId(data) - 1;
  }

  /** The list after pushing a new record with the three given fields. */
  function Appended(data: seq<Item>, f: Fields): (r: seq<Item>)
    ensures |r| == |data| + 1 && r[..|data|] == data
    ensures r[|data|] == Item(NextId(data), f.nama, f.tanggal, f.alamat)
    ensures Increasing(data) ==> Increasing(r)
  {
    data + [Item(NextId(data), f.nama, f.tanggal, f.alamat)]
  }

  /** Successive creates, each one reading the list the previous one wrote. */
  function AppendedAll(data: seq<Item>, fs: seq<Fields>): seq<Item>
    decreases |fs|
  {
    if fs == [] then data else AppendedAll(Appended(data, fs[0]), fs[1..])
  }

  /** Each successive create keeps the list it started from and appends the fields in order. */
  lemma {:induction false} AppendedAllExtends(data: seq<Item>, fs: seq<Fields>)
    ensures var r := AppendedAll(data, fs);
      && |r| == |data| + |fs|
      && r[..|data|] == data
      && forall k :: 0 <= k < |fs| ==>
           r[|data| + k].nama == fs[k].nama
           && r[|data| + k].tanggal == fs[k].tanggal
           && r[|data| + k].alamat == fs[k].alamat
    decreases |fs|
  {
    if fs != [] {
      var d1 := Appended(data, fs[0]);
      AppendedAllExtends(d1, fs[1..]);
      var r := AppendedAll(data, fs);
      assert r == AppendedAll(d1, fs[1..]);
      assert r[..|data|] == r[..|d1|][..|data|];
      forall k | 0 <= k < |fs|
        ensures r[|data| + k].nama == fs[k].nama
        ensures r[|data| + k].tanggal == fs[k].tanggal
        ensures r[|data| + k].alamat == fs[k].alamat
      {
        if k == 0 {
          assert r[|data|] == r[..|d1|][|data|] == d1[|data|];
        } else {
          assert r[|d1| + (k - 1)] == r[|data| + k];
          assert fs[1..][k - 1] == fs[k];
        }
      }
    }
  }

  /** A list numbered 1..n stays numbered consecutively under successive creates. */
  lemma {:induction false} AppendedAllNumbers(data: seq<Item>, fs: seq<Fields>)
    requires forall i :: 0 <= i < |data| ==> data[i].id == i + 1
    ensures var r := AppendedAll(data, fs);
      |r| == |data| + |fs| && forall i :: 0 <= i < |r| ==> r[i].id == i + 1
    decreases |fs|
  {
    AppendedAllExtends(data, fs);
    if fs != [] {
      var d1 := Appended(data, fs[0]);
      forall i | 0 <= i < |d1| ensures d1[i].id == i + 1 {
        if i < |data| {
          assert d1[i] == d1[..|data|][i];
        } else {
          assert |data| == 0 || NextId(data) == data[|data| - 1].id + 1;
        }
      }
      AppendedAllNumbers(d1, fs[1..]);
    }
  }

  /** From an empty store, N successful creates give ids 1..N carrying the N bodies in order. */
  lemma CreatesFromEmptyNumberOneToN(fs: seq<Fields>)
    ensures var r := AppendedAll([], fs);
      && |r| == |fs|
      && forall i :: 0 <= i < |r| ==>
           r[i] == Item(i + 1, fs[i].nama, fs[i].tanggal, fs[i].alamat)
  {
    AppendedAllNumbers([], fs);
    AppendedAllExtends([], fs);
    var r := AppendedAll([], fs);
    forall i | 0 <= i < |r| ensures r[i] == Item(i + 1, fs[i].nama, fs[i].tanggal, fs[i].alamat) {
      assert r[0 + i] == r[i];
    }
  }

  /** Without the increasing order, "last id + 1" can hand out an id that is already taken. */
  lemma LastPlusOneNeedsOrder()
    ensures var data := [Item(2, "a", "t", "x"), Item(1, "b", "t", "y")];
      !Increasing(data) && !UniqueIds(Appended(data, Fields("c", "t", "z")))
  {
    var data := [Item(2, "a", "t", "x"), Item(1, "b", "t", "y")];
    var r := Appended(data, Fields("c", "t", "z"));
    assert r[0].id == r[2].id;
  }

  // ---------------------------------------------------------------------------
  // Update: lookup of the first match and replacement of its fields
  // ---------------------------------------------------------------------------

  /** The position of the first record whose id matches, or -1 when none does. */
  function FindIndex(data: seq<Item>, id: Option<int>): (r: int)
    ensures -1 <= r < |data|
    ensures r == -1 <==> !HasId(data, id)
    ensures 0 <= r ==> Matches(data[r], id) && forall i :: 0 <= i < r ==> !Matches(data[i], id)
  {
    if |data| == 0 then -1
    else if Matches(data[0], id) then 0
    else
      var k := FindIndex(data[1..], id);
      assert forall i :: 1 <= i < |data| ==> data[i] == data[1..][i - 1];
      if k == -1 then -1 else k + 1
  }

  /** The list after replacing the three fields of the record at index, keeping its id. */
  function Replaced(data: seq<Item>, index: nat, f: Fields): (r: seq<Item>)
    requires index < |data|
    ensures |r| == |data|
    ensures r[index] == Item(data[index].id, f.nama, f.tanggal, f.alamat)
    ensures forall i :: 0 <= i < |data| && i != index ==> r[i] == data[i]
    ensures forall i :: 0 <= i < |data| ==> r[i].id == data[i].id
    ensures Increasing(data) ==> Increasing(r)
  {
    data[index := Item(data[index].id, f.nama, f.tanggal, f.alamat)]
  }

  /** Replacing the first match leaves the same record the first match: a repeated update hits it again. */
  lemma ReplacedKeepsLookup(data: seq<Item>, id: Option<int>, f: Fields)
    requires HasId(data, id)
    ensures var k := FindIndex(data, id);
      FindIndex(Replaced(data, k, f), id) == k
  {
  }

  // ---------------------------------------------------------------------------
  // Delete: filtering out every match
  // ---------------------------------------------------------------------------

  /** The list with every record whose id matches removed, the others kept in order. */
  function Without(data: seq<Item>, id: Option<int>): (r: seq<Item>)
    ensures |r| <= |data|
    ensures forall i :: 0 <= i < |r| ==> !Matches(r[i], id)
  {
    if data == [] then []
    else if Matches(data[0], id) then Without(data[1..], id)
    else [data[0]] + Without(data[1..], id)
  }

  /** Filtering commutes with concatenation, so records that stay keep their relative order. */
  lemma {:induction false} WithoutConcat(a: seq<Item>, b: seq<Item>, id: Option<int>)
    ensures Without(a + b, id) == Without(a, id) + Without(b, id)
    decreases |a|
  {
    if a == [] {
      assert a + b == b;
    } else {
      var ab := a + b;
      assert ab[0] == a[0] && ab[1..] == a[1..] + b;
      WithoutConcat(a[1..], b, id);
      if Matches(a[0], id) {
        assert Without(ab, id) == Without(a[1..] + b, id);
      } else {
        assert Without(ab, id) == [a[0]] + Without(a[1..] + b, id);
        assert [a[0]] + (Without(a[1..], id) + Without(b, id)) == ([a[0]] + Without(a[1..], id)) + Without(b, id);
      }
    }
  }

  /** Without a match at the head, a list has a match iff its tail has one. */
  lemma HasIdInTail(data: seq<Item>, id: Option<int>)
    requires |data| > 0 && !Matches(data[0], id)
    ensures HasId(data, id) <==> HasId(data[1..], id)
  {
  }

  /** The filter removes nothing, and gives back the same list, iff nothing matches. */
  lemma {:induction false} WithoutShrinksIffMatch(data: seq<Item>, id: Option<int>)
    ensures !HasId(data, id) <==> |Without(data, id)| == |data|
    ensures !HasId(data, id) ==> Without(data, id) == data
    decreases |data|
  {
    if data != [] {
      WithoutShrinksIffMatch(data[1..], id);
      if Matches(data[0], id) {
        assert HasId(data, id);
      } else {
        HasIdInTail(data, id);
      }
    }
  }

  /** The filter keeps exactly the records that do not match, and drops no other. */
  lemma {:induction false} WithoutKeepsNonMatching(data: seq<Item>, id: Option<int>)
    ensures forall x :: x in Without(data, id) <==> x in data && !Matches(x, id)
    decreases |data|
  {
    if data != [] {
      WithoutKeepsNonMatching(data[1..], id);
      assert data == [data[0]] + data[1..];
    }
  }

  /** A record of the filtered list whose id increased in the original still does. */
  lemma {:induction false} WithoutPreservesIncreasing(data: seq<Item>, id: Option<int>)
    requires Increasing(data)
    ensures Increasing(Without(data, id))
    decreases |data|
  {
    if data != [] {
      var rest := data[1..];
      assert Increasing(rest) by {
        forall i, j | 0 <= i < j < |rest| ensures rest[i].id < rest[j].id {
          assert rest[i] == data[i + 1] && rest[j] == data[j + 1];
        }
      }
      WithoutPreservesIncreasing(rest, id);
      WithoutKeepsNonMatching(rest, id);
      if !Matches(data[0], id) {
        var w := Without(rest, id);
        var r := [data[0]] + w;
        forall i, j | 0 <= i < j < |r| ensures r[i].id < r[j].id {
          assert r[j] == w[j - 1];
          assert r[j] in rest;
          var m :| 0 <= m < |rest| && rest[m] == r[j];
          assert rest[m] == data[m + 1];
          if i > 0 { assert r[i] == w[i - 1]; }
        }
      }
    }
  }

  /** Under increasing ids, the last record's id occurs nowhere before it. */
  lemma LastIdOnlyAtEnd(data: seq<Item>)
    requires Increasing(data) && |data| > 0
    ensures !HasId(data[..|data| - 1], Some(data[|data| - 1].id))
  {
  }

  /** Appending one matching record to a list without matches: the filter gives back that list. */
  lemma WithoutDropsMatchingTail(front: seq<Item>, x: Item, id: Option<int>)
    requires !HasId(front, id) && Matches(x, id)
    ensures Without(front + [x], id) == front
  {
    WithoutShrinksIffMatch(front, id);
    assert Without([x], id) == [] by {
      assert [x][1..] == [];
    }
    WithoutConcat(front, [x], id);
  }

  /** Under increasing ids, deleting the last record's id removes exactly that record, so the
      next create hands out an id no greater than the deleted one: ids are reused, not monotone
      over the life of the store (ids start at 1, as they do from an empty store). */
  lemma DeletingLastLowersNextId(data: seq<Item>)
    requires Increasing(data) && |data| > 0 && data[0].id >= 1
    ensures Without(data, Some(data[|data| - 1].id)) == data[..|data| - 1]
    ensures NextId(Without(data, Some(data[|data| - 1].id))) <= data[|data| - 1].id
  {
    var n := |data|;
    var front, last := data[..n - 1], data[n - 1];
    LastIdOnlyAtEnd(data);
    assert data == front + [last];
    WithoutDropsMatchingTail(front, last, Some(last.id));
    if n > 1 {
      assert front[n - 2] == data[n - 2];
      assert data[n - 2].id < last.id;
    }
  }
}
