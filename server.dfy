/**
 * The similarity endpoint of server/app.py: `POST /api/similar_verses` checks
 * the three request fields, finds the first metadata entry that matches them,
 * and turns the nearest-neighbour list of that entry into citations, leaving
 * the entry itself out. The vector search is an arbitrary function from a
 * query index to a list of metadata indices.
 */
module Server {
  import opened Wrappers
  import opened Decimal
  import Api
  import GE = GenerateEmbeddings

  /** The JSON values a request field can hold that the endpoint distinguishes. */
  datatype Json = JNull | JBool(b: bool) | JInt(i: int) | JStr(s: string)

  /** Number of neighbours asked for besides the query itself (`k=50`, server/app.py:13). */
  const K: nat := 50

  /** What the endpoint answers. */
  datatype Response =
    | Status200(verses: seq<Api.RelatedVerse>)
    | Status400(error: string)
    | Status500(failure: Json)

  const MissingFieldsError := "Missing book, chapter, or verse"

  // ---------------------------------------------------------------------------
  // Request fields
  // ---------------------------------------------------------------------------

  /** `data.get(key)`: the value, or `None` when the key is absent. */
  function Field(body: map<string, Json>, key: string): Json {
    if key in body then body[key] else JNull
  }

  /** Python truthiness: `None`, `False`, `0` and `""` are falsy. */
  predicate Truthy(j: Json) {
    match j
    case JNull => false
    case JBool(b) => b
    case JInt(i) => i != 0
    case JStr(s) => s != ""
  }

  /** `all([book, chapter, verse])` (server/app.py:40). */
  predicate ValidRequest(body: map<string, Json>) {
    Truthy(Field(body, "book")) && Truthy(Field(body, "chapter")) && Truthy(Field(body, "verse"))
  }

  /** Python's `int(x)`; `Err(x)` where it raises. */
  function ToInt(j: Json): (r: Result<int, Json>)
    ensures r.Err? ==> r.error == j
    ensures j.JInt? ==> r == Ok(j.i)
  {
    match j
    case JNull => Err(j)
    case JBool(b) => Ok(if b then 1 else 0)
    case JInt(i) => Ok(i)
    case JStr(s) => if ParseInt(s).Some? then Ok(ParseInt(s).value) else Err(j)
  }

  /** `m['book'] == book`: a stored name equals only the same string. */
  predicate SameBook(name: string, book: Json) {
    book.JStr? && book.s == name
  }

  predicate Matches(m: GE.VerseMeta, book: Json, chapter: int, verse: int) {
    SameBook(m.book, book) && m.chapter == chapter && m.verse == verse
  }

  // ---------------------------------------------------------------------------
  // The first-match lookup
  // ---------------------------------------------------------------------------

  /**
   * `next(i for i, m in enumerate(metadata) if m['book'] == book and
   * m['chapter'] == int(chapter) and m['verse'] == int(verse))` from index
   * `from` on: `None` for `StopIteration`, `Err` where an `int()` raises. The
   * conversions run only for entries whose earlier conjuncts hold.
   */
  function FirstMatch(metadata: seq<GE.VerseMeta>, book: Json, chapter: Json, verse: Json, from: nat): (r: Result<Option<nat>, Json>)
    requires from <= |metadata|
    ensures r.Ok? && r.value.Some? ==> from <= r.value.value < |metadata|
    decreases |metadata| - from
  {
    if from == |metadata| then Ok(None)
    else if !SameBook(metadata[from].book, book) then FirstMatch(metadata, book, chapter, verse, from + 1)
    else if ToInt(chapter).Err? then Err(chapter)
    else if metadata[from].chapter != ToInt(chapter).value then FirstMatch(metadata, book, chapter, verse, from + 1)
    else if ToInt(verse).Err? then Err(verse)
    else if metadata[from].verse != ToInt(verse).value then FirstMatch(metadata, book, chapter, verse, from + 1)
    else Ok(Some(from))
  }

  /**
   * With both numbers readable, the lookup gives the lowest matching index,
   * or nothing exactly when no entry matches.
   */
  lemma {:induction false} FirstMatchSpec(metadata: seq<GE.VerseMeta>, book: Json, chapter: Json, verse: Json, from: nat)
    requires from <= |metadata|
    requires ToInt(chapter).Ok? && ToInt(verse).Ok?
    ensures FirstMatch(metadata, book, chapter, verse, from).Ok?
    ensures var r := FirstMatch(metadata, book, chapter, verse, from);
      r.value.Some? ==>
        Matches(metadata[r.value.value], book, ToInt(chapter).value, ToInt(verse).value) &&
        forall j :: from <= j < r.value.value ==> !Matches(metadata[j], book, ToInt(chapter).value, ToInt(verse).value)
    ensures FirstMatch(metadata, book, chapter, verse, from).value.None? <==>
      forall j :: from <= j < |metadata| ==> !Matches(metadata[j], book, ToInt(chapter).value, ToInt(verse).value)
    decreases |metadata| - from
  {
    if from < |metadata| {
      FirstMatchSpec(metadata, book, chapter, verse, from + 1);
    }
  }

  /**
   * `int()` is never reached when no entry has the book: a request for an
   * unknown book yields nothing, whatever its chapter and verse hold.
   */
  lemma {:induction false} UnknownBookFindsNothing(metadata: seq<GE.VerseMeta>, book: Json, chapter: Json, verse: Json, from: nat)
    requires from <= |metadata|
    requires forall j :: from <= j < |metadata| ==> !SameBook(metadata[j].book, book)
    ensures FirstMatch(metadata, book, chapter, verse, from) == Ok(None)
    decreases |metadata| - from
  {
    if from < |metadata| {
      UnknownBookFindsNothing(metadata, book, chapter, verse, from + 1);
    }
  }

  /** An unreadable chapter fails the lookup exactly when some entry has the book. */
  lemma {:induction false} BadChapterFails(metadata: seq<GE.VerseMeta>, book: Json, chapter: Json, verse: Json, from: nat)
    requires from <= |metadata|
    requires ToInt(chapter).Err?
    ensures FirstMatch(metadata, book, chapter, verse, from).Err? <==>
      exists j :: from <= j < |metadata| && SameBook(metadata[j].book, book)
    ensures FirstMatch(metadata, book, chapter, verse, from).Err? ==>
      FirstMatch(metadata, book, chapter, verse, from).error == chapter
    decreases |metadata| - from
  {
    if from < |metadata| && !SameBook(metadata[from].book, book) {
      BadChapterFails(metadata, book, chapter, verse, from + 1);
      if exists j :: from <= j < |metadata| && SameBook(metadata[j].book, book) {
        var j :| from <= j < |metadata| && SameBook(metadata[j].book, book);
        assert from + 1 <= j;
      }
    }
  }

  // ---------------------------------------------------------------------------
  // The neighbour list
  // ---------------------------------------------------------------------------

  /** The search results with every occurrence of the query index removed, in order. */
  function Kept(ns: seq<nat>, q: nat): seq<nat> {
    if ns == [] then []
    else Kept(ns[..|ns| - 1], q) + (if ns[|ns| - 1] == q then [] else [ns[|ns| - 1]])
  }

  lemma {:induction false} KeptSpec(ns: seq<nat>, q: nat)
    ensures q !in Kept(ns, q)
    ensures |Kept(ns, q)| == |ns| - multiset(ns)[q]
    ensures forall x :: x != q ==> multiset(Kept(ns, q))[x] == multiset(ns)[x]
  {
    if ns != [] {
      var init, last := ns[..|ns| - 1], ns[|ns| - 1];
      KeptSpec(init, q);
      assert ns == init + [last];
      assert multiset(ns) == multiset(init) + multiset{last};
    }
  }

  /** Removing the query commutes with concatenation: the search order is kept. */
  lemma {:induction false} KeptAppend(a: seq<nat>, b: seq<nat>, q: nat)
    ensures Kept(a + b, q) == Kept(a, q) + Kept(b, q)
    decreases |b|
  {
    if b == [] {
      assert a + b == a;
    } else {
      var b' := b[..|b| - 1];
      KeptAppend(a, b', q);
      assert (a + b)[..|a + b| - 1] == a + b';
      assert (a + b)[|a + b| - 1] == b[|b| - 1];
    }
  }

  /** A list without the query index is kept whole. */
  lemma {:induction false} KeptWithoutQuery(ns: seq<nat>, q: nat)
    requires q !in ns
    ensures Kept(ns, q) == ns
  {
    if ns != [] {
      KeptWithoutQuery(ns[..|ns| - 1], q);
      assert ns[..|ns| - 1] + [ns[|ns| - 1]] == ns;
    }
  }

  /** One element of the reply for a metadata entry (server/app.py:26-30). */
  function EntryOf(m: GE.VerseMeta): Api.RelatedVerse {
    Api.RelatedVerse(Api.Reference(m.book, m.chapter, m.verse), m.text)
  }

  /** Two entries of the same book get the same citation only for the same chapter and verse. */
  lemma EntryCitesItsVerse(m1: GE.VerseMeta, m2: GE.VerseMeta)
    requires m1.book == m2.book
    requires EntryOf(m1).reference == EntryOf(m2).reference
    ensures m1.chapter == m2.chapter && m1.verse == m2.verse
  {
    Api.ReferenceInjective(m1.book, m1.chapter, m1.verse, m2.chapter, m2.verse);
  }

  predicate InRange(metadata: seq<GE.VerseMeta>, ns: seq<nat>) {
    forall j :: 0 <= j < |ns| ==> ns[j] < |metadata|
  }

  /** The index search answers every query with `K + 1` metadata indices. */
  predicate SearchResults(metadata: seq<GE.VerseMeta>, search: nat -> seq<nat>) {
    forall q: nat :: q < |metadata| ==> |search(q)| == K + 1 && InRange(metadata, search(q))
  }

  /** The loop of server/app.py:23-30 over the neighbour indices. */
  method CollectSimilar(metadata: seq<GE.VerseMeta>, neighbours: seq<nat>, q: nat) returns (similar: seq<Api.RelatedVerse>)
    requires InRange(metadata, neighbours)
    ensures |similar| == |Kept(neighbours, q)|
    ensures forall j :: 0 <= j < |similar| ==>
      Kept(neighbours, q)[j] < |metadata| && similar[j] == EntryOf(metadata[Kept(neighbours, q)[j]])
  {
    similar := [];
    var i := 0;
    while i < |neighbours|
      invariant 0 <= i <= |neighbours|
      invariant |similar| == |Kept(neighbours[..i], q)|
      invariant forall j :: 0 <= j < |similar| ==>
        Kept(neighbours[..i], q)[j] < |metadata| && similar[j] == EntryOf(metadata[Kept(neighbours[..i], q)[j]])
    {
      var idx := neighbours[i];
      assert neighbours[..i + 1][..i] == neighbours[..i];
      if idx != q {
        similar := similar + [EntryOf(metadata[idx])];
      }
      i := i + 1;
    }
    assert neighbours[..i] == neighbours;
  }

  /**
   * `get_similar_verses` (server/app.py:13-32): nothing for an unknown verse,
   * the failure of a raising `int()`, or the citations of the query's
   * neighbours other than itself, in search order.
   */
  method GetSimilarVerses(metadata: seq<GE.VerseMeta>, book: Json, chapter: Json, verse: Json, search: nat -> seq<nat>)
    returns (r: Result<seq<Api.RelatedVerse>, Json>)
    requires SearchResults(metadata, search)
    ensures FirstMatch(metadata, book, chapter, verse, 0).Err? ==>
      r == Err(FirstMatch(metadata, book, chapter, verse, 0).error)
    ensures FirstMatch(metadata, book, chapter, verse, 0) == Ok(None) ==> r == Ok([])
    ensures FirstMatch(metadata, book, chapter, verse, 0).Ok? && FirstMatch(metadata, book, chapter, verse, 0).value.Some? ==>
      var q := FirstMatch(metadata, book, chapter, verse, 0).value.value;
      r.Ok? && |r.value| == |Kept(search(q), q)| == K + 1 - multiset(search(q))[q] && q !in Kept(search(q), q) &&
      forall j :: 0 <= j < |r.value| ==>
        (Kept(search(q), q)[j] < |metadata| && r.value[j] == EntryOf(metadata[Kept(search(q), q)[j]]))
  {
    var found := FirstMatch(metadata, book, chapter, verse, 0);
    if found.Err? {
      return Err(found.error);
    }
    if found.value.None? {
      return Ok([]);
    }
    var q := found.value.value;
    var similar := CollectSimilar(metadata, search(q), q);
    KeptSpec(search(q), q);
    return Ok(similar);
  }

  /** The route handler `similar_verses` (server/app.py:34-44). */
  method SimilarVerses(body: map<string, Json>, metadata: seq<GE.VerseMeta>, search: nat -> seq<nat>) returns (resp: Response)
    requires SearchResults(metadata, search)
    ensures !ValidRequest(body) <==> resp == Status400(MissingFieldsError)
    ensures resp.Status500? <==>
      ValidRequest(body) && FirstMatch(metadata, Field(body, "book"), Field(body, "chapter"), Field(body, "verse"), 0).Err?
    ensures ValidRequest(body) && FirstMatch(metadata, Field(body, "book"), Field(body, "chapter"), Field(body, "verse"), 0) == Ok(None)
      ==> resp == Status200([])
    ensures (ValidRequest(body) &&
      FirstMatch(metadata, Field(body, "book"), Field(body, "chapter"), Field(body, "verse"), 0).Ok? &&
      FirstMatch(metadata, Field(body, "book"), Field(body, "chapter"), Field(body, "verse"), 0).value.Some?) ==>
      var q := FirstMatch(metadata, Field(body, "book"), Field(body, "chapter"), Field(body, "verse"), 0).value.value;
      resp.Status200? && |resp.verses| == |Kept(search(q), q)| &&
      forall j :: 0 <= j < |resp.verses| ==>
        (Kept(search(q), q)[j] < |metadata| && resp.verses[j] == EntryOf(metadata[Kept(search(q), q)[j]]))
    ensures resp.Status200? ==>
      forall j :: 0 <= j < |resp.verses| ==> exists i :: 0 <= i < |metadata| && resp.verses[j] == EntryOf(metadata[i])
  {
    var book, chapter, verse := Field(body, "book"), Field(body, "chapter"), Field(body, "verse");
    if !(Truthy(book) && Truthy(chapter) && Truthy(verse)) {
      return Status400(MissingFieldsError);
    }
    var similar := GetSimilarVerses(metadata, book, chapter, verse, search);
    if similar.Err? {
      return Status500(similar.error);
    }
    resp := Status200(similar.value);
    ghost var found := FirstMatch(metadata, book, chapter, verse, 0);
    if found.Ok? && found.value.Some? {
      var q := found.value.value;
      forall j | 0 <= j < |resp.verses|
        ensures exists i :: 0 <= i < |metadata| && resp.verses[j] == EntryOf(metadata[i])
      {
        var i := Kept(search(q), q)[j];
        assert 0 <= i < |metadata| && resp.verses[j] == EntryOf(metadata[i]);
      }
    }
  }

  // ---------------------------------------------------------------------------
  // The reader's requests against the generated metadata
  // ---------------------------------------------------------------------------

  /** The JSON body the reader posts for a request. */
  function RequestBody(req: Api.Request): map<string, Json> {
    map["book" := JStr(req.book), "chapter" := JInt(req.chapter), "verse" := JInt(req.verse)]
  }

  /** A reader's request is turned away exactly when its book name is empty or a number is 0. */
  lemma RequestValidity(req: Api.Request)
    ensures ValidRequest(RequestBody(req)) <==> req.book != "" && req.chapter != 0 && req.verse != 0
  {
    var body := RequestBody(req);
    assert Field(body, "book") == JStr(req.book);
    assert Field(body, "chapter") == JInt(req.chapter);
    assert Field(body, "verse") == JInt(req.verse);
  }

  /**
   * Over the metadata that the embedding step produced, with distinct book
   * names, asking for book `b`'s name, chapter `c + 1` and verse `v + 1` finds
   * exactly that verse's entry.
   */
  lemma LookupFindsVerse(books: seq<GE.BookData>, b: nat, c: nat, v: nat)
    requires GE.DistinctNames(books) && GE.ValidPosition(books, b, c, v)
    ensures FirstMatch(GE.CorpusMeta(books), JStr(books[b].name), JInt(c + 1), JInt(v + 1), 0)
      == Ok(Some(GE.Offset(books, b, c, v)))
  {
    var metadata := GE.CorpusMeta(books);
    var book, chapter, verse := JStr(books[b].name), JInt(c + 1), JInt(v + 1);
    var o := GE.Offset(books, b, c, v);
    GE.CorpusMetaAt(books, b, c, v);
    assert Matches(metadata[o], book, c + 1, v + 1);
    FirstMatchSpec(metadata, book, chapter, verse, 0);
    var r := FirstMatch(metadata, book, chapter, verse, 0);
    assert r.value.Some?;
    var q := r.value.value;
    GE.EntryIdentifiesVerse(books, b, c, v, q);
  }
}
