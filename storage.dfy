/**
 * `MemStorage` of server/storage.ts: users and documents kept in two maps keyed
 * by id. A JavaScript `Map` remembers the order in which its keys were first
 * set, and both the search by user name and the document listing follow that
 * order, so each map is kept here together with the sequence of its keys.
 */
module Storage {
  import opened Wrappers
  import opened Schema
  import opened Seqs

  /** No key appears twice. */
  predicate Distinct(keys: seq<string>) {
    forall i, j | 0 <= i < j < |keys| :: keys[i] != keys[j]
  }

  /** `keys` lists the keys of `m` in some order, each once. */
  predicate Lists<V>(keys: seq<string>, m: map<string, V>) {
    Distinct(keys) && (forall id | id in keys :: id in m) && (forall id | id in m :: id in keys)
  }

  /** A value of the update if it has one, the current value otherwise. */
  function Override<T>(update: Option<T>, current: T): T {
    if update.Some? then update.value else current
  }

  /** `{ ...existingDoc, ...updates }`: the fields the update holds replace those of the document. */
  function Merge(d: Document, u: DocumentUpdate): (r: Document)
    ensures r.id == d.id && r.filename == d.filename && r.originalSize == d.originalSize && r.createdAt == d.createdAt
    ensures u.extractedText.Some? ==> r.extractedText == u.extractedText.value
    ensures u.extractedText.None? ==> r.extractedText == d.extractedText
    ensures u.processingStatus.Some? ==> r.processingStatus == u.processingStatus.value
    ensures u.processingStatus.None? ==> r.processingStatus == d.processingStatus
    ensures u.completedAt.Some? ==> r.completedAt == u.completedAt.value
    ensures u.completedAt.None? ==> r.completedAt == d.completedAt
    ensures u.extractedQuestions.Some? ==> r.extractedQuestions == u.extractedQuestions.value
    ensures u.extractedQuestions.None? ==> r.extractedQuestions == d.extractedQuestions
    ensures u.wordCount.Some? ==> r.wordCount == u.wordCount.value
    ensures u.wordCount.None? ==> r.wordCount == d.wordCount
    ensures u.characterCount.Some? ==> r.characterCount == u.characterCount.value
    ensures u.characterCount.None? ==> r.characterCount == d.characterCount
    ensures u.pageCount.Some? ==> r.pageCount == u.pageCount.value
    ensures u.pageCount.None? ==> r.pageCount == d.pageCount
    ensures u.questionCount.Some? ==> r.questionCount == u.questionCount.value
    ensures u.questionCount.None? ==> r.questionCount == d.questionCount
    ensures u.conversionTime.Some? ==> r.conversionTime == u.conversionTime.value
    ensures u.conversionTime.None? ==> r.conversionTime == d.conversionTime
  {
    d.(extractedText := Override(u.extractedText, d.extractedText),
       extractedQuestions := Override(u.extractedQuestions, d.extractedQuestions),
       wordCount := Override(u.wordCount, d.wordCount),
       characterCount := Override(u.characterCount, d.characterCount),
       pageCount := Override(u.pageCount, d.pageCount),
       questionCount := Override(u.questionCount, d.questionCount),
       processingStatus := Override(u.processingStatus, d.processingStatus),
       conversionTime := Override(u.conversionTime, d.conversionTime),
       completedAt := Override(u.completedAt, d.completedAt))
  }

  /** The update that holds no field. */
  const NO_CHANGES: DocumentUpdate := DocumentUpdate(None, None, None, None, None, None, None, None, None)

  /** Two updates one after the other, as one: a field of the second wins. */
  function Then(u: DocumentUpdate, v: DocumentUpdate): DocumentUpdate {
    DocumentUpdate(
      if v.extractedText.Some? then v.extractedText else u.extractedText,
      if v.extractedQuestions.Some? then v.extractedQuestions else u.extractedQuestions,
      if v.wordCount.Some? then v.wordCount else u.wordCount,
      if v.characterCount.Some? then v.characterCount else u.characterCount,
      if v.pageCount.Some? then v.pageCount else u.pageCount,
      if v.questionCount.Some? then v.questionCount else u.questionCount,
      if v.processingStatus.Some? then v.processingStatus else u.processingStatus,
      if v.conversionTime.Some? then v.conversionTime else u.conversionTime,
      if v.completedAt.Some? then v.completedAt else u.completedAt)
  }

  /** An empty update changes nothing. */
  lemma MergeNoChanges(d: Document)
    ensures Merge(d, NO_CHANGES) == d
  {
  }

  /** Applying the same update twice is applying it once. */
  lemma MergeIdempotent(d: Document, u: DocumentUpdate)
    ensures Merge(Merge(d, u), u) == Merge(d, u)
  {
  }

  /** Two successive updates amount to their combination. */
  lemma MergeThen(d: Document, u: DocumentUpdate, v: DocumentUpdate)
    ensures Merge(Merge(d, u), v) == Merge(d, Then(u, v))
  {
  }

  /** The record `createDocument` builds: the upload's name and size, nothing extracted yet, pending. */
  function NewDocument(insert: InsertDocument, id: string, now: int): (r: Document)
    ensures r.id == id && r.filename == insert.filename && r.originalSize == insert.originalSize
    ensures r.processingStatus == "pending" && r.createdAt == now
    ensures r.extractedText.None? && r.extractedQuestions.None? && r.wordCount.None? && r.characterCount.None?
    ensures r.pageCount.None? && r.questionCount.None? && r.conversionTime.None? && r.completedAt.None?
  {
    Document(id, insert.filename, insert.originalSize, None, None, None, None, None, None, "pending", None, now, None)
  }

  /** `Array.from(map.values())`: the values of `m` in the order of `keys`. */
  function Values<V>(m: map<string, V>, keys: seq<string>): (r: seq<V>)
    requires forall id | id in keys :: id in m
    ensures |r| == |keys|
    ensures forall i | 0 <= i < |keys| :: r[i] == m[keys[i]]
  {
    if keys == [] then [] else [m[keys[0]]] + Values(m, keys[1..])
  }

  /** Newer first: the order `(a, b) => b.createdAt - a.createdAt` asks for. */
  predicate NewestFirst(docs: seq<Document>) {
    forall i, j | 0 <= i < j < |docs| :: docs[i].createdAt >= docs[j].createdAt
  }

  /** Put `d` in front of the first document not newer than it. */
  function InsertByCreatedAt(d: Document, docs: seq<Document>): (r: seq<Document>)
    ensures |r| == |docs| + 1
  {
    if docs == [] || docs[0].createdAt <= d.createdAt then [d] + docs
    else [docs[0]] + InsertByCreatedAt(d, docs[1..])
  }

  /** Inserting adds `d` and loses nothing. */
  lemma {:induction false} InsertPermutes(d: Document, docs: seq<Document>)
    ensures multiset(InsertByCreatedAt(d, docs)) == multiset(docs) + multiset{d}
  {
    if docs != [] && docs[0].createdAt > d.createdAt {
      InsertPermutes(d, docs[1..]);
      assert docs == [docs[0]] + docs[1..];
    }
  }

  /** Inserting a document no newer than a bound into documents no newer than it keeps them all under it. */
  lemma {:induction false} InsertBelow(d: Document, docs: seq<Document>, bound: int)
    requires d.createdAt <= bound
    requires forall i | 0 <= i < |docs| :: docs[i].createdAt <= bound
    ensures forall i | 0 <= i < |docs| + 1 :: InsertByCreatedAt(d, docs)[i].createdAt <= bound
  {
    if docs != [] && docs[0].createdAt > d.createdAt {
      InsertBelow(d, docs[1..], bound);
      var r := InsertByCreatedAt(d, docs);
      forall i | 0 <= i < |docs| + 1 ensures r[i].createdAt <= bound {
        if i > 0 {
          assert r[i] == InsertByCreatedAt(d, docs[1..])[i - 1];
        }
      }
    }
  }

  /** Inserting into documents newest first keeps them newest first. */
  lemma {:induction false} InsertKeepsOrder(d: Document, docs: seq<Document>)
    requires NewestFirst(docs)
    ensures NewestFirst(InsertByCreatedAt(d, docs))
  {
    var r := InsertByCreatedAt(d, docs);
    if docs == [] || docs[0].createdAt <= d.createdAt {
      forall i, j | 0 <= i < j < |r| ensures r[i].createdAt >= r[j].createdAt {
        if i > 0 {
          assert r[i] == docs[i - 1] && r[j] == docs[j - 1];
        } else {
          assert r[j] == docs[j - 1];
          assert docs[0].createdAt >= docs[j - 1].createdAt || j - 1 == 0;
        }
      }
    } else {
      var rest := InsertByCreatedAt(d, docs[1..]);
      InsertKeepsOrder(d, docs[1..]);
      InsertBelow(d, docs[1..], docs[0].createdAt);
      forall i, j | 0 <= i < j < |r| ensures r[i].createdAt >= r[j].createdAt {
        assert r[j] == rest[j - 1];
        if i > 0 {
          assert r[i] == rest[i - 1];
        }
      }
    }
  }

  /** `Array.prototype.sort` with that comparison, which is stable: an insertion sort. */
  function SortByCreatedAt(docs: seq<Document>): (r: seq<Document>)
    ensures multiset(r) == multiset(docs)
    ensures NewestFirst(r)
  {
    if docs == [] then []
    else
      var sorted := SortByCreatedAt(docs[1..]);
      InsertPermutes(docs[0], sorted);
      InsertKeepsOrder(docs[0], sorted);
      assert docs == [docs[0]] + docs[1..];
      InsertByCreatedAt(docs[0], sorted)
  }

  /** The documents created at instant `t`, in their order. */
  function CreatedAt(docs: seq<Document>, t: int): seq<Document> {
    if docs == [] then []
    else (if docs[0].createdAt == t then [docs[0]] else []) + CreatedAt(docs[1..], t)
  }

  /** Inserting `d` puts it in front of the documents created at the same instant. */
  lemma {:induction false} InsertStable(d: Document, docs: seq<Document>, t: int)
    ensures CreatedAt(InsertByCreatedAt(d, docs), t)
            == (if d.createdAt == t then [d] else []) + CreatedAt(docs, t)
  {
    if docs == [] || docs[0].createdAt <= d.createdAt {
      Cons(d, docs);
    } else {
      var rest := InsertByCreatedAt(d, docs[1..]);
      InsertStable(d, docs[1..], t);
      Cons(docs[0], rest);
      SwapEmpty(if docs[0].createdAt == t then [docs[0]] else [], if d.createdAt == t then [d] else [],
                CreatedAt(docs[1..], t));
    }
  }

  /** The sort is stable: documents created at the same instant keep their order. */
  lemma {:induction false} SortStable(docs: seq<Document>, t: int)
    ensures CreatedAt(SortByCreatedAt(docs), t) == CreatedAt(docs, t)
  {
    if docs != [] {
      SortStable(docs[1..], t);
      InsertStable(docs[0], SortByCreatedAt(docs[1..]), t);
    }
  }

  /** A key list without repeats has as many keys as the map it lists. */
  lemma {:induction false} ListsAll<V>(keys: seq<string>, m: map<string, V>)
    requires Lists(keys, m)
    ensures |keys| == |m|
    decreases |keys|
  {
    if keys != [] {
      var rest := m - {keys[0]};
      forall id ensures id in keys[1..] <==> id in rest {
        if id in keys[1..] {
          var i :| 1 <= i < |keys| && keys[i] == id;
        }
        if id in rest {
          var i :| 0 <= i < |keys| && keys[i] == id;
          assert i != 0;
          assert keys[1..][i - 1] == id;
        }
      }
      ListsAll(keys[1..], rest);
      assert m.Keys == rest.Keys + {keys[0]};
    }
  }

  class MemStorage {
    var users: map<string, User>
    var userOrder: seq<string>
    var documents: map<string, Document>
    var documentOrder: seq<string>

    /** Every record is stored under its own id, and each key list lists its map. */
    ghost predicate Valid()
      reads this
    {
      && (forall id | id in users :: users[id].id == id)
      && (forall id | id in documents :: documents[id].id == id)
      && Lists(userOrder, users)
      && Lists(documentOrder, documents)
    }

    constructor()
      ensures Valid()
      ensures users == map[] && userOrder == []
      ensures documents == map[] && documentOrder == []
    {
      users := map[];
      userOrder := [];
      documents := map[];
      documentOrder := [];
    }

    /** `this.users.get(id)`: the user stored under the id, if any. */
    method GetUser(id: string) returns (user: Option<User>)
      requires Valid()
      ensures user.Some? <==> id in users
      ensures user.Some? ==> user.value == users[id] && user.value.id == id
    {
      if id in users {
        user := Some(users[id]);
      } else {
        user := None;
      }
    }

    /** The first stored user, in order of creation, with the name; none when no user has it. */
    method GetUserByUsername(username: string) returns (user: Option<User>)
      requires Valid()
      ensures user.None? <==> forall id | id in users :: users[id].username != username
      ensures user.Some? ==> user.value.username == username && user.value.id in users && users[user.value.id] == user.value
      ensures user.Some? ==> exists i | 0 <= i < |userOrder| :: && userOrder[i] == user.value.id
                                                             && forall j | 0 <= j < i :: users[userOrder[j]].username != username
    {
      var i := 0;
      while i < |userOrder|
        invariant i <= |userOrder|
        invariant forall j | 0 <= j < i :: users[userOrder[j]].username != username
      {
        var candidate := users[userOrder[i]];
        if candidate.username == username {
          return Some(candidate);
        }
        i := i + 1;
      }
      forall id | id in users ensures users[id].username != username {
        var j :| 0 <= j < |userOrder| && userOrder[j] == id;
      }
      return None;
    }

    /** Store the given name and password under the id supplied for `randomUUID()`. */
    method CreateUser(insertUser: InsertUser, id: string) returns (user: User)
      requires Valid()
      modifies this
      ensures Valid()
      ensures user == User(id, insertUser.username, insertUser.password)
      ensures users == old(users)[id := user]
      ensures userOrder == if id in old(users) then old(userOrder) else old(userOrder) + [id]
      ensures documents == old(documents) && documentOrder == old(documentOrder)
    {
      user := User(id, insertUser.username, insertUser.password);
      if id !in users {
        userOrder := userOrder + [id];
      }
      users := users[id := user];
    }

    /** Store a new pending document under the id supplied for `randomUUID()`, created at `now`. */
    method CreateDocument(insert: InsertDocument, id: string, now: int) returns (document: Document)
      requires Valid()
      modifies this
      ensures Valid()
      ensures document == NewDocument(insert, id, now)
      ensures documents == old(documents)[id := document]
      ensures documentOrder == if id in old(documents) then old(documentOrder) else old(documentOrder) + [id]
      ensures users == old(users) && userOrder == old(userOrder)
    {
      document := NewDocument(insert, id, now);
      if id !in documents {
        documentOrder := documentOrder + [id];
      }
      documents := documents[id := document];
    }

    /** `this.documents.get(id)`: the document stored under the id, if any. */
    method GetDocument(id: string) returns (document: Option<Document>)
      requires Valid()
      ensures document.Some? <==> id in documents
      ensures document.Some? ==> document.value == documents[id] && document.value.id == id
    {
      if id in documents {
        document := Some(documents[id]);
      } else {
        document := None;
      }
    }

    /** Merge the update into the document stored under the id; nothing happens for an unknown id. */
    method UpdateDocument(id: string, updates: DocumentUpdate) returns (updated: Option<Document>)
      requires Valid()
      modifies this
      ensures Valid()
      ensures id !in old(documents) ==> updated.None? && documents == old(documents)
      ensures id in old(documents) ==> && updated == Some(Merge(old(documents)[id], updates))
                                       && documents == old(documents)[id := updated.value]
      ensures documentOrder == old(documentOrder)
      ensures users == old(users) && userOrder == old(userOrder)
    {
      if id !in documents {
        return None;
      }
      var merged := Merge(documents[id], updates);
      documents := documents[id := merged];
      updated := Some(merged);
    }

    /** Every stored document once, newest first; those created at the same instant in order of creation. */
    method GetAllDocuments() returns (docs: seq<Document>)
      requires Valid()
      ensures docs == SortByCreatedAt(Values(documents, documentOrder))
      ensures NewestFirst(docs)
      ensures |docs| == |documents|
      ensures forall id | id in documents :: documents[id] in docs
      ensures forall d | d in docs :: d.id in documents && documents[d.id] == d
    {
      var stored := Values(documents, documentOrder);
      docs := SortByCreatedAt(stored);
      ListsAll(documentOrder, documents);
      forall id | id in documents ensures documents[id] in docs {
        var i :| 0 <= i < |documentOrder| && documentOrder[i] == id;
        assert stored[i] == documents[id];
        assert documents[id] in multiset(stored);
      }
      forall d | d in docs ensures d.id in documents && documents[d.id] == d {
        assert d in multiset(stored);
        var i :| 0 <= i < |stored| && stored[i] == d;
      }
    }
  }
}
