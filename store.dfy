/** The server's mutable state: the list of posts (the contents of the data
    file, which every handler reads, changes and writes back whole) and the
    process-wide id counter. Each state-changing request handler is a method
    whose upload outcome is a parameter. */
module Store {
  import opened Records

  /** What a handler answers: the rendered list view after a submission, a
      redirect to the management view after an update or a delete, a 404
      for an unknown id, or a 500 when moving the uploaded file failed. */
  datatype Status = Rendered | Redirected | NotFound | ServerError

  class RecordStore {
    /** The record list as the data file holds it, in insertion order. */
    var records: seq<Record>
    /** The next id `generateUniqueId` hands out. */
    var nextId: int
    /** The ids handed out so far in this process. */
    ghost var issued: set<int>

    /** The counter is above every stored id and every id it has issued. */
    ghost predicate Valid()
      reads this
    {
      AllBelow(records, nextId) && forall x :: x in issued ==> x < nextId
    }

    /** Process start-up: the data file is read and the counter seeded. */
    constructor (data: seq<Record>)
      ensures Valid()
      ensures records == data && nextId == Seed(data) && issued == {}
    {
      records := data;
      issued := {};
      new;
      InitializeNextId();
    }

    /** `initializeNextId`: one more than the largest stored id, or 1. It runs
        once, at start-up, before any id has been issued. */
    method InitializeNextId()
      requires issued == {}
      modifies this`nextId
      ensures Valid()
      ensures nextId == Seed(records)
    {
      if |records| > 0 {
        nextId := MaxId(records) + 1;
      } else {
        nextId := 1;
      }
    }

    /** `generateUniqueId`: post-increment of the counter. The id returned is
        above every id issued before and is not stored in the list. */
    method GenerateUniqueId() returns (id: int)
      requires Valid()
      modifies this`nextId, this`issued
      ensures Valid()
      ensures id == old(nextId) && nextId == old(nextId) + 1
      ensures issued == old(issued) + {id}
      ensures forall x :: x in old(issued) ==> x < id
      ensures !HasId(records, id)
    {
      id := nextId;
      nextId := nextId + 1;
      issued := issued + {id};
    }

    /** `POST /submit`. `moved` is whether moving the uploaded file into the
        images directory succeeded; the id is allocated only after that. */
    method Submit(moved: bool, fileName: string, title: string, description: string,
                  authorName: string, blogTitle: string, paraGraph: string)
      returns (status: Status)
      requires Valid()
      modifies this
      ensures Valid()
      ensures status == if moved then Rendered else ServerError
      ensures !moved ==> records == old(records) && nextId == old(nextId) && issued == old(issued)
      ensures moved ==>
        && nextId == old(nextId) + 1
        && issued == old(issued) + {old(nextId)}
        && !HasId(old(records), old(nextId))
        && records == old(records) + [Record(old(nextId), title, description,
                                             ImagePathFor(fileName), authorName, blogTitle, paraGraph)]
        && Find(records, old(nextId)) == Some(records[|records| - 1])
      ensures UniqueIds(old(records)) ==> UniqueIds(records)
    {
      if !moved {
        return ServerError;
      }
      var id := GenerateUniqueId();
      var entry := Record(id, title, description, ImagePathFor(fileName), authorName, blogTitle, paraGraph);
      var data := records;
      AppendFresh(data, entry);
      data := data + [entry];
      records := data;
      status := Rendered;
    }

    /** `PATCH /update/:id`. Non-empty text fields overwrite the stored ones;
        `image` is the name of an uploaded replacement image, if any, and
        `moved` whether moving it succeeded. On a 404 or a failed move the
        changed copy is dropped and nothing is written. */
    method Update(id: int, title: string, description: string, authorName: string,
                  blogTitle: string, paraGraph: string, image: Option<string>, moved: bool)
      returns (status: Status)
      requires Valid()
      modifies this`records
      ensures Valid()
      ensures !HasId(old(records), id) ==> status == NotFound && records == old(records)
      ensures HasId(old(records), id) && image.Some? && !moved ==>
        status == ServerError && records == old(records)
      ensures HasId(old(records), id) && (image.None? || moved) ==>
        var k := FindIndex(old(records), id);
        && status == Redirected
        && records == old(records)[k := Revise(old(records)[k], title, description, authorName,
                                               blogTitle, paraGraph, image)]
      ensures |records| == |old(records)|
      ensures forall j :: 0 <= j < |records| ==> records[j].id == old(records)[j].id
    {
      var data := records;
      var k := FindIndex(data, id);
      if k == -1 {
        return NotFound;
      }
      var entry := data[k];
      if title != "" { entry := entry.(title := title); }
      if description != "" { entry := entry.(description := description); }
      if authorName != "" { entry := entry.(authorName := authorName); }
      if blogTitle != "" { entry := entry.(blogTitle := blogTitle); }
      if paraGraph != "" { entry := entry.(paraGraph := paraGraph); }
      assert entry == Patch(records[k], title, description, authorName, blogTitle, paraGraph);
      if image.Some? {
        // The old image file is unlinked here, best-effort; the list is not touched.
        if !moved {
          return ServerError;
        }
        entry := entry.(imagePath := ImagePathFor(image.value));
      }
      assert entry == Revise(records[k], title, description, authorName, blogTitle, paraGraph, image);
      ReplaceSameId(records, k, entry, nextId);
      data := data[k := entry];
      records := data;
      status := Redirected;
    }

    /** `DELETE /delete/:id`: the first record with the id is spliced out and
        returned, so that its image file can be unlinked (best-effort). */
    method Delete(id: int) returns (status: Status, removed: Option<Record>)
      requires Valid()
      modifies this`records
      ensures Valid()
      ensures !HasId(old(records), id) ==>
        status == NotFound && removed == None && records == old(records)
      ensures HasId(old(records), id) ==>
        var k := FindIndex(old(records), id);
        && status == Redirected
        && removed == Some(old(records)[k])
        && records == RemoveAt(old(records), k)
      ensures UniqueIds(old(records)) ==> UniqueIds(records) && !HasId(records, id)
    {
      var data := records;
      var k := FindIndex(data, id);
      if k == -1 {
        return NotFound, None;
      }
      ghost var before := data;
      removed := Some(data[k]);
      data := RemoveAt(data, k);
      RemoveAtBelow(before, k, nextId);
      RemoveAtIds(before, k);
      records := data;
      status := Redirected;
    }
  }

  /** A session from an empty data file: two submissions with a failed
      upload between them, then the first post is deleted. The failed upload
      consumes no id, so the posts get ids 1 and 2, and only the second is
      left. */
  method ExampleSession() returns (first: int, second: int, left: seq<Record>)
    ensures first == 1 && second == 2
    ensures left == [Record(2, "B", "", "images/b.png", "", "", "")]
  {
    var store := new RecordStore([]);
    var s := store.Submit(true, "a.png", "A", "", "", "", "");
    first := store.records[0].id;
    s := store.Submit(false, "x.png", "X", "", "", "", "");
    s := store.Submit(true, "b.png", "B", "", "", "", "");
    second := store.records[1].id;
    ghost var b := store.records[1];
    assert b == Record(2, "B", "", "images/b.png", "", "", "");
    assert FindIndex(store.records, first) == 0;
    var removed;
    s, removed := store.Delete(first);
    left := store.records;
    assert left == [b];
  }
}
