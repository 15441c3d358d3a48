/**
 The three writing request handlers of the schedule API: POST /items,
 PUT /items/:id and DELETE /items/:id. Each takes the list that
 readDatabase loaded (an abstract load of the backing file) and returns the
 HTTP status, the record sent back in the response body, and the list passed
 to writeDatabase, or None when the handler answers without writing.
 */
module Handlers {
  import opened Items

  const OK := 200
  const CREATED := 201
  const BAD_REQUEST := 400
  const NOT_FOUND := 404

  /** The request body fields after JSON parsing; None when a field is absent. */
  datatype Body = Body(nama: Option<string>, tanggal: Option<string>, alamat: Option<string>)

  /** A field counts as given only when it is present and not the empty string. */
  predicate Filled(field: Option<string>)
  {
    field.Some? && field.value != ""
  }

  predicate Complete(body: Body)
  {
    Filled(body.nama) && Filled(body.tanggal) && Filled(body.alamat)
  }

  function FieldsOf(body: Body): Fields
    requires Complete(body)
  {
    Fields(body.nama.value, body.tanggal.value, body.alamat.value)
  }

  /** POST /items: validate, then push a record with the next id and write the list. */
  method Create(data: seq<Item>, body: Body) returns (status: int, item: Option<Item>, written: Option<seq<Item>>)
    ensures status == BAD_REQUEST <==> !Complete(body)
    ensures status == BAD_REQUEST ==> item == None && written == None
    ensures status != BAD_REQUEST ==>
      && status == CREATED
      && item == Some(Item(NextId(data), body.nama.value, body.tanggal.value, body.alamat.value))
      && written == Some(Appended(data, FieldsOf(body)))
    ensures written.Some? && Increasing(data) ==> Increasing(written.value)
  {
    if !Complete(body) {
      return BAD_REQUEST, None, None;
    }
    var newItem := Item(NextId(data), body.nama.value, body.tanggal.value, body.alamat.value);
    status, item, written := CREATED, Some(newItem), Some(data + [newItem]);
  }

  /** PUT /items/:id: validate, look the id up, then replace the first match's fields in place. */
  method Update(data: seq<Item>, id: Option<int>, body: Body) returns (status: int, item: Option<Item>, written: Option<seq<Item>>)
    ensures status == BAD_REQUEST <==> !Complete(body)
    ensures status == NOT_FOUND <==> Complete(body) && !HasId(data, id)
    ensures status == BAD_REQUEST || status == NOT_FOUND ==> item == None && written == None
    ensures status != BAD_REQUEST && status != NOT_FOUND ==>
      && status == OK
      && var k := FindIndex(data, id);
      && 0 <= k < |data| && Matches(data[k], id)
      && (forall i :: 0 <= i < k ==> !Matches(data[i], id))
      && written == Some(Replaced(data, k, FieldsOf(body)))
      && item == Some(Item(data[k].id, body.nama.value, body.tanggal.value, body.alamat.value))
    ensures written.Some? && Increasing(data) ==> Increasing(written.value)
  {
    if !Complete(body) {
      return BAD_REQUEST, None, None;
    }
    var index := FindIndex(data, id);
    if index == -1 {
      return NOT_FOUND, None, None;
    }
    var stored := data[index := Item(data[index].id, body.nama.value, body.tanggal.value, body.alamat.value)];
    status, item, written := OK, Some(stored[index]), Some(stored);
  }

  /** DELETE /items/:id: filter out every match; 404 without writing when nothing was removed. */
  method Delete(data: seq<Item>, id: Option<int>) returns (status: int, written: Option<seq<Item>>)
    ensures status == NOT_FOUND <==> !HasId(data, id)
    ensures status == NOT_FOUND ==> written == None
    ensures status != NOT_FOUND ==>
      && status == OK
      && written == Some(Without(data, id))
      && |written.value| < |data|
      && !HasId(written.value, id)
    ensures written.Some? && Increasing(data) ==> Increasing(written.value)
  {
    var newData := Without(data, id);
    WithoutShrinksIffMatch(data, id);
    if |newData| == |data| {
      return NOT_FOUND, None;
    }
    if Increasing(data) {
      WithoutPreservesIncreasing(data, id);
    }
    status, written := OK, Some(newData);
  }
}
