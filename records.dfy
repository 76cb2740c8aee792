/** Post records and the pure operations over the record list: the id lookups,
    the seed of the id counter, the field-wise patch of an update and the
    removal of one entry. */
module Records {

  datatype Option<T> = None | Some(value: T)

  /** One blog post. Form fields left out of a request are the empty string. */
  datatype Record = Record(
    id: int,
    title: string,
    description: string,
    imagePath: string,
    authorName: string,
    blogTitle: string,
    paraGraph: string)

  /** Uploaded images are stored, and referenced, under this directory. */
  const ImagesDir: string := "images/"

  /** The stored path of an uploaded image: the images directory, then the
      uploaded file's name verbatim. */
  function ImagePathFor(fileName: string): (p: string)
    ensures |p| == |ImagesDir| + |fileName|
    ensures p[..|ImagesDir|] == ImagesDir && p[|ImagesDir|..] == fileName
  {
    ImagesDir + fileName
  }

  predicate HasId(s: seq<Record>, id: int)
  {
    exists i :: 0 <= i < |s| && s[i].id == id
  }

  /** No two records share an id. */
  predicate UniqueIds(s: seq<Record>)
  {
    forall i, j :: 0 <= i < j < |s| ==> s[i].id != s[j].id
  }

  /** Every stored id is below `bound`. */
  predicate AllBelow(s: seq<Record>, bound: int)
  {
    forall r :: r in s ==> r.id < bound
  }

  /** The linear scan of the update and delete handlers: the first index whose
      record has the id, or -1 when there is none. */
  function FindIndex(s: seq<Record>, id: int): (k: int)
    ensures -1 <= k < |s|
    ensures k == -1 <==> !HasId(s, id)
    ensures k != -1 ==> s[k].id == id && forall j :: 0 <= j < k ==> s[j].id != id
  {
    if |s| == 0 then -1
    else if s[0].id == id then 0
    else
      var k := FindIndex(s[1..], id);
      assert forall j :: 1 <= j < |s| ==> s[j] == s[1..][j - 1];
      if k == -1 then -1 else k + 1
  }

  /** The lookup of the edit and detail pages: the first record with the id,
      if any. */
  function Find(s: seq<Record>, id: int): (r: Option<Record>)
    ensures r.None? <==> !HasId(s, id)
    ensures r.Some? ==> r.value.id == id
    ensures r.Some? ==>
      exists k :: 0 <= k < |s| && s[k] == r.value && forall j :: 0 <= j < k ==> s[j].id != id
  {
    var k := FindIndex(s, id);
    if k == -1 then None else Some(s[k])
  }

  /** The largest id of a non-empty list. */
  function MaxId(s: seq<Record>): (m: int)
    requires |s| > 0
    ensures HasId(s, m)
    ensures forall i :: 0 <= i < |s| ==> s[i].id <= m
  {
    if |s| == 1 then s[0].id
    else
      var rest := MaxId(s[1..]);
      assert forall j :: 1 <= j < |s| ==> s[j] == s[1..][j - 1];
      if s[0].id > rest then s[0].id else rest
  }

  /** The value `initializeNextId` gives the counter: one more than the largest
      stored id, or 1 for an empty list. It exceeds every stored id, and for a
      non-empty list no smaller value does. */
  function Seed(s: seq<Record>): (n: int)
    ensures AllBelow(s, n)
    ensures s == [] ==> n == 1
    ensures s != [] ==> HasId(s, n - 1)
  {
    if |s| > 0 then MaxId(s) + 1 else 1
  }

  /** An update request's text field replaces the stored one only when it is
      non-empty (a falsy value leaves the field alone). */
  function Overwrite(current: string, incoming: string): (r: string)
    ensures incoming != "" ==> r == incoming
    ensures incoming == "" ==> r == current
  {
    if incoming != "" then incoming else current
  }

  /** The text-field part of an update: each non-empty incoming value
      replaces the corresponding field; `id` and `imagePath` are kept. */
  function Patch(e: Record, title: string, description: string, authorName: string,
                 blogTitle: string, paraGraph: string): (p: Record)
    ensures p.id == e.id && p.imagePath == e.imagePath
  {
    e.(title := Overwrite(e.title, title),
       description := Overwrite(e.description, description),
       authorName := Overwrite(e.authorName, authorName),
       blogTitle := Overwrite(e.blogTitle, blogTitle),
       paraGraph := Overwrite(e.paraGraph, paraGraph))
  }

  /** The whole of a successful update: the patch, then the new image path
      when an image was uploaded. */
  function Revise(e: Record, title: string, description: string, authorName: string,
                  blogTitle: string, paraGraph: string, image: Option<string>): (r: Record)
    ensures r.id == e.id
    ensures image.Some? ==> r.imagePath == ImagePathFor(image.value)
    ensures image.None? ==> r.imagePath == e.imagePath
    ensures r.(imagePath := e.imagePath) == Patch(e, title, description, authorName, blogTitle, paraGraph)
  {
    var p := Patch(e, title, description, authorName, blogTitle, paraGraph);
    if image.Some? then p.(imagePath := ImagePathFor(image.value)) else p
  }

  /** `splice(i, 1)`: the list without its i-th element, the others in order. */
  function RemoveAt(s: seq<Record>, i: int): (r: seq<Record>)
    requires 0 <= i < |s|
    ensures |r| == |s| - 1
  {
    s[..i] + s[i + 1..]
  }

  /** Removal keeps every remaining id below any bound the ids were below. */
  lemma RemoveAtBelow(s: seq<Record>, i: int, bound: int)
    requires 0 <= i < |s| && AllBelow(s, bound)
    ensures AllBelow(RemoveAt(s, i), bound)
  {
    RemoveAtOrder(s, i);
  }

  /** Removal keeps the records before index i where they were and moves the
      ones after it down by one, in their order. */
  lemma RemoveAtOrder(s: seq<Record>, i: int)
    requires 0 <= i < |s|
    ensures forall j :: 0 <= j < i ==> RemoveAt(s, i)[j] == s[j]
    ensures forall j :: i <= j < |s| - 1 ==> RemoveAt(s, i)[j] == s[j + 1]
  {
  }

  /** Removal takes out exactly one occurrence of the removed record. */
  lemma RemoveAtMultiset(s: seq<Record>, i: int)
    requires 0 <= i < |s|
    ensures multiset(s) == multiset(RemoveAt(s, i)) + multiset{s[i]}
  {
    assert s == s[..i] + [s[i]] + s[i + 1..];
  }

  // ---------------------------------------------------------------------
  // Properties of the text-field patch

  /** The patch never changes the id or the image path, and each text field
      ends up either the incoming value (when non-empty) or the old one. */
  lemma PatchFields(e: Record, title: string, description: string, authorName: string,
                    blogTitle: string, paraGraph: string)
    ensures var p := Patch(e, title, description, authorName, blogTitle, paraGraph);
      && p.id == e.id && p.imagePath == e.imagePath
      && (title != "" ==> p.title == title)
      && (title == "" ==> p.title == e.title)
      && (description != "" ==> p.description == description)
      && (description == "" ==> p.description == e.description)
      && (authorName != "" ==> p.authorName == authorName)
      && (authorName == "" ==> p.authorName == e.authorName)
      && (blogTitle != "" ==> p.blogTitle == blogTitle)
      && (blogTitle == "" ==> p.blogTitle == e.blogTitle)
      && (paraGraph != "" ==> p.paraGraph == paraGraph)
      && (paraGraph == "" ==> p.paraGraph == e.paraGraph)
  {
  }

  /** An update request with no non-empty field changes nothing. */
  lemma PatchEmptyIsIdentity(e: Record)
    ensures Patch(e, "", "", "", "", "") == e
  {
  }

  /** Sending the same update twice has the effect of sending it once. */
  lemma PatchIdempotent(e: Record, title: string, description: string, authorName: string,
                        blogTitle: string, paraGraph: string)
    ensures var p := Patch(e, title, description, authorName, blogTitle, paraGraph);
      Patch(p, title, description, authorName, blogTitle, paraGraph) == p
  {
  }

  /** An update that carries only a title leaves every other field as it was. */
  lemma PatchTitleOnly(e: Record, title: string)
    ensures Patch(e, title, "", "", "", "") == e.(title := Overwrite(e.title, title))
  {
  }

  // ---------------------------------------------------------------------
  // Lookups after each kind of change to the list

  /** Appending a record: lookups of ids already present are unchanged, the
      appended id (when new) is found at the end, and other ids stay absent. */
  lemma {:induction false} FindIndexAppend(s: seq<Record>, e: Record, id: int)
    ensures FindIndex(s + [e], id) ==
      if HasId(s, id) then FindIndex(s, id) else if e.id == id then |s| else -1
  {
    if |s| > 0 {
      assert (s + [e])[1..] == s[1..] + [e];
      assert forall j :: 1 <= j < |s| ==> s[j] == s[1..][j - 1];
      FindIndexAppend(s[1..], e, id);
    }
  }

  /** A freshly numbered record appended to the list is what a lookup of its
      id returns, and the list keeps unique ids below the next counter value. */
  lemma AppendFresh(s: seq<Record>, e: Record)
    requires AllBelow(s, e.id)
    ensures Find(s + [e], e.id) == Some(e)
    ensures AllBelow(s + [e], e.id + 1)
    ensures UniqueIds(s) ==> UniqueIds(s + [e])
  {
    FindIndexAppend(s, e, e.id);
  }

  /** Replacing a record by one with the same id changes no lookup index. */
  lemma {:induction false} FindIndexReplace(s: seq<Record>, i: int, e: Record, id: int)
    requires 0 <= i < |s| && e.id == s[i].id
    ensures FindIndex(s[i := e], id) == FindIndex(s, id)
  {
    if s[0].id != id && i > 0 {
      assert s[i := e][1..] == s[1..][i - 1 := e];
      FindIndexReplace(s[1..], i - 1, e, id);
    }
  }

  /** Replacing a record by one with the same id keeps ids unique and below
      any bound they were below, and the replacement is what its id finds
      when ids were unique. */
  lemma ReplaceSameId(s: seq<Record>, i: int, e: Record, bound: int)
    requires 0 <= i < |s| && e.id == s[i].id
    ensures UniqueIds(s) ==> UniqueIds(s[i := e]) && Find(s[i := e], e.id) == Some(e)
    ensures AllBelow(s, bound) ==> AllBelow(s[i := e], bound)
  {
    FindIndexReplace(s, i, e, e.id);
    if UniqueIds(s) {
      assert FindIndex(s, e.id) == i;
    }
  }

  /** Removing one record keeps the remaining ids unique and bounded; when
      ids were unique its id is gone and every other id is still present. */
  lemma RemoveAtIds(s: seq<Record>, i: int)
    requires 0 <= i < |s|
    ensures UniqueIds(s) ==> UniqueIds(RemoveAt(s, i))
    ensures UniqueIds(s) ==> !HasId(RemoveAt(s, i), s[i].id)
    ensures forall id :: id != s[i].id ==> (HasId(RemoveAt(s, i), id) <==> HasId(s, id))
  {
    var r := RemoveAt(s, i);
    RemoveAtOrder(s, i);
    forall id | id != s[i].id && HasId(s, id)
      ensures HasId(r, id)
    {
      var j :| 0 <= j < |s| && s[j].id == id;
      if j < i { assert r[j].id == id; } else { assert r[j - 1].id == id; }
    }
    if UniqueIds(s) {
      forall a, b | 0 <= a < b < |r|
        ensures r[a].id != r[b].id
      {
        var a' := if a < i then a else a + 1;
        var b' := if b < i then b else b + 1;
        assert r[a] == s[a'] && r[b] == s[b'];
      }
      forall j | 0 <= j < |r|
        ensures r[j].id != s[i].id
      {
        if j < i { assert r[j] == s[j]; } else { assert r[j] == s[j + 1]; }
      }
    }
  }
}
