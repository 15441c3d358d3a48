/**
 The backing file and the request cycle around each writing handler: read
 the whole list, run the handler, and overwrite the file only when the
 handler wrote. The file's contents are a field; readDatabase and
 writeDatabase become a read and an assignment of it.
 */
module Store {
  import opened Items
  import opened Handlers

  class Database {
    /** The list held in the backing file. */
    var contents: seq<Item>

    /** Ids increase along the file, so no two records ever share an id. */
    ghost predicate Valid()
      reads this
    {
      Increasing(contents)
    }

    /** A missing backing file is created holding the empty list. */
    constructor ()
      ensures Valid() && contents == []
    {
      contents := [];
    }

    /** One POST /items request. */
    method Post(body: Body) returns (status: int, item: Option<Item>)
      requires Valid()
      modifies this
      ensures Valid() && UniqueIds(contents)
      ensures status == BAD_REQUEST <==> !Complete(body)
      ensures status == BAD_REQUEST ==> contents == old(contents) && item == None
      ensures status != BAD_REQUEST ==>
        status == CREATED && contents == Appended(old(contents), FieldsOf(body))
        && item == Some(contents[|contents| - 1])
    {
      var data := contents;
      var written;
      status, item, written := Create(data, body);
      if written.Some? {
        contents := written.value;
      }
      IncreasingIdsAreUnique(contents);
    }

    /** One PUT /items/:id request. */
    method Put(id: Option<int>, body: Body) returns (status: int, item: Option<Item>)
      requires Valid()
      modifies this
      ensures Valid() && UniqueIds(contents)
      ensures status == BAD_REQUEST <==> !Complete(body)
      ensures status == NOT_FOUND <==> Complete(body) && !HasId(old(contents), id)
      ensures status == BAD_REQUEST || status == NOT_FOUND ==> contents == old(contents) && item == None
      ensures status != BAD_REQUEST && status != NOT_FOUND ==>
        var k := FindIndex(old(contents), id);
        status == OK && 0 <= k && contents == Replaced(old(contents), k, FieldsOf(body))
        && item == Some(contents[k])
    {
      var data := contents;
      var written;
      status, item, written := Update(data, id, body);
      if written.Some? {
        contents := written.value;
      }
      IncreasingIdsAreUnique(contents);
    }

    /** One DELETE /items/:id request. */
    method Remove(id: Option<int>) returns (status: int)
      requires Valid()
      modifies this
      ensures Valid() && UniqueIds(contents)
      ensures status == NOT_FOUND <==> !HasId(old(contents), id)
      ensures status == NOT_FOUND ==> contents == old(contents)
      ensures status != NOT_FOUND ==> status == OK && contents == Without(old(contents), id) && !HasId(contents, id)
    {
      var data := contents;
      var written;
      status, written := Delete(data, id);
      if written.Some? {
        contents := written.value;
      }
      IncreasingIdsAreUnique(contents);
    }
  }

  /** Two creates on an empty store, an update of the first record and a delete of the
      second leave exactly the updated first record, with the statuses each step answers. */
  method ScheduleScenario() returns (statuses: seq<int>, final: seq<Item>)
    ensures statuses == [CREATED, CREATED, OK, OK, NOT_FOUND]
    ensures final == [Item(1, "A2", "2024-01-01", "X")]
  {
    var db := new Database();
    var s1, i1 := db.Post(Body(Some("A"), Some("2024-01-01"), Some("X")));
    assert i1 == Some(Item(1, "A", "2024-01-01", "X"));
    var s2, i2 := db.Post(Body(Some("B"), Some("2024-01-02"), Some("Y")));
    assert i2 == Some(Item(2, "B", "2024-01-02", "Y"));
    assert Matches(db.contents[0], Some(1));
    var s3, i3 := db.Put(Some(1), Body(Some("A2"), Some("2024-01-01"), Some("X")));
    assert i3 == Some(Item(1, "A2", "2024-01-01", "X"));
    assert Matches(db.contents[1], Some(2));
    var s4 := db.Remove(Some(2));
    var s5 := db.Remove(Some(2));
    statuses := [s1, s2, s3, s4, s5];
    final := db.contents;
  }
}
