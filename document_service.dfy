/**
 * The document store: a table of documents keyed by an auto-generated id,
 * each pointing at the user it was uploaded for, resolved through the user
 * service.
 */
module Documents {
  import opened Wrappers
  import opened Entities
  import opened Users

  /** Every row sits under its own id, and ids are generated from 1 upwards. */
  ghost predicate WellKeyed(documents: map<int, Document>, nextId: int) {
    forall id :: id in documents ==> documents[id].id == id && 1 <= id < nextId
  }

  /** The document service over an in-memory document table. */
  class DocumentService {
    var documents: map<int, Document>
    var nextId: int
    const userService: UserService

    ghost predicate Valid()
      reads this
    {
      1 <= nextId && WellKeyed(documents, nextId)
    }

    constructor (userService: UserService)
      ensures Valid()
      ensures documents == map[] && nextId == 1 && this.userService == userService
    {
      documents := map[];
      nextId := 1;
      this.userService := userService;
    }

    /**
     * Saves a new document with a fresh id, the given title, `content` as its
     * description, and as owner whatever the user lookup of `userId` returns.
     * A missing owner is not rejected: the document is saved without one.
     */
    method CreateDocument(userId: int, title: string, content: string) returns (d: Document)
      requires Valid() && userService.Valid()
      modifies this
      ensures Valid() && nextId == old(nextId) + 1
      ensures d.id == old(nextId) && d.id !in old(documents) && documents == old(documents)[d.id := d]
      ensures d.title == title && d.description == content && d.filePath == None
      ensures d.user.Some? <==> userId in userService.users
      ensures d.user.Some? ==> d.user.value.id == userId && d.user.value == userService.users[userId]
    {
      var user := userService.FindById(userId);
      d := Document(nextId, title, content, None, user);
      documents := documents[nextId := d];
      nextId := nextId + 1;
    }

    /** Every stored document, of every owner, without changing the table. */
    method GetDocuments() returns (r: set<Document>)
      requires Valid()
      ensures forall d :: d in r <==> d.id in documents && documents[d.id] == d
    {
      r := set id | id in documents :: documents[id];
    }

    /** The document stored under `id`, or null, without changing the table. */
    method GetDocument(id: int) returns (r: Option<Document>)
      requires Valid()
      ensures r.Some? <==> id in documents
      ensures r.Some? ==> r.value.id == id && documents[id] == r.value
    {
      if id in documents {
        r := Some(documents[id]);
      } else {
        r := None;
      }
    }

    /**
     * Sets the title of document `id`. The `content` argument is assigned to
     * a property the entity does not declare, so the stored description, the
     * id, the file path and the owner stay as they were. A missing id makes
     * the field assignment on `null` throw, and the table is left as it was.
     */
    method UpdateDocument(id: int, title: string, content: string) returns (r: Result<Document>)
      requires Valid()
      modifies this
      ensures Valid() && nextId == old(nextId)
      ensures r.Err? <==> id !in old(documents)
      ensures r.Err? ==> r.error == NullReference && documents == old(documents)
      ensures r.Ok? ==> && r.value.id == id
                        && r.value.title == title
                        && r.value.description == old(documents)[id].description
                        && r.value.filePath == old(documents)[id].filePath
                        && r.value.user == old(documents)[id].user
                        && documents == old(documents)[id := r.value]
    {
      var found := GetDocument(id);
      if found.None? {
        return Err(NullReference);
      }
      var document := found.value.(title := title);
      documents := documents[id := document];
      r := Ok(document);
    }

    /**
     * Removes document `id` when it is stored; a missing id is not an error.
     * Every other document stays as it was.
     */
    method DeleteDocument(id: int)
      requires Valid()
      modifies this
      ensures Valid() && nextId == old(nextId)
      ensures documents == old(documents) - {id}
      ensures id !in old(documents) ==> documents == old(documents)
    {
      documents := documents - {id};
    }
  }
}
