/**
 * The flattening loop of ml/generate_embeddings.py: every verse of the nested
 * corpus (books, then chapters, then verses) gets one metadata entry with its
 * 1-based chapter and verse numbers, and one embedding of the text
 * `"{name} {chapter}:{verse} {text}"`. The embedding model is an arbitrary
 * function given as a parameter.
 */
module GenerateEmbeddings {
  import Api

  /** One book of the input corpus: its display name and its chapters of verse texts. */
  datatype BookData = BookData(name: string, chapters: seq<seq<string>>)

  /** One entry of `metadata`: `{'book', 'chapter', 'verse', 'text'}`. */
  datatype VerseMeta = VerseMeta(book: string, chapter: int, verse: int, text: string)

  // ---------------------------------------------------------------------------
  // Counting verses
  // ---------------------------------------------------------------------------

  /** The sum of `size` over a sequence (defined from the end, as the loops append). */
  function SumOf<T>(xs: seq<T>, size: T -> nat): nat {
    if xs == [] then 0 else SumOf(xs[..|xs| - 1], size) + size(xs[|xs| - 1])
  }

  function ChapterLength(chapter: seq<string>): nat {
    |chapter|
  }

  /** The number of verses in a run of chapters. */
  function ChapterVerses(chapters: seq<seq<string>>): nat {
    SumOf(chapters, ChapterLength)
  }

  function BookVerses(book: BookData): nat {
    ChapterVerses(book.chapters)
  }

  /** The number of verses in a run of books. */
  function TotalVerses(books: seq<BookData>): nat {
    SumOf(books, BookVerses)
  }

  lemma SumOfStep<T>(xs: seq<T>, size: T -> nat, i: nat)
    requires i < |xs|
    ensures SumOf(xs[..i + 1], size) == SumOf(xs[..i], size) + size(xs[i])
  {
    assert xs[..i + 1][..i] == xs[..i];
  }

  /** Prefix sums grow with the prefix: what comes before item `i` fits before item `j > i`. */
  lemma {:induction false} SumOfMonotone<T>(xs: seq<T>, size: T -> nat, i: nat, j: nat)
    requires i <= j <= |xs|
    ensures SumOf(xs[..i], size) <= SumOf(xs[..j], size)
    decreases j - i
  {
    if i < j {
      SumOfStep(xs, size, j - 1);
      SumOfMonotone(xs, size, i, j - 1);
    }
  }

  // ---------------------------------------------------------------------------
  // The metadata list, defined level by level
  // ---------------------------------------------------------------------------

  /** The entries of chapter `c` of book `name`, verses numbered from 1. */
  function VersesMeta(name: string, c: int, verses: seq<string>): seq<VerseMeta> {
    if verses == [] then []
    else VersesMeta(name, c, verses[..|verses| - 1]) + [VerseMeta(name, c, |verses|, verses[|verses| - 1])]
  }

  /** The entries of a run of chapters of book `name`, chapters numbered from 1. */
  function ChaptersMeta(name: string, chapters: seq<seq<string>>): seq<VerseMeta> {
    if chapters == [] then []
    else ChaptersMeta(name, chapters[..|chapters| - 1]) + VersesMeta(name, |chapters|, chapters[|chapters| - 1])
  }

  /** The `metadata` list of a corpus. */
  function CorpusMeta(books: seq<BookData>): seq<VerseMeta> {
    if books == [] then []
    else CorpusMeta(books[..|books| - 1]) + ChaptersMeta(books[|books| - 1].name, books[|books| - 1].chapters)
  }

  /** The text given to the embedding model: `f"{verse_reference} {verse_text}"`. */
  function EmbeddingInput(m: VerseMeta): string {
    Api.Reference(m.book, m.chapter, m.verse) + " " + m.text
  }

  /** Where verse `v` of chapter `c` of book `b` (all 0-based) lands in the flat list. */
  function Offset(books: seq<BookData>, b: nat, c: nat, v: nat): nat
    requires b < |books| && c < |books[b].chapters|
  {
    TotalVerses(books[..b]) + ChapterVerses(books[b].chapters[..c]) + v
  }

  predicate ValidPosition(books: seq<BookData>, b: nat, c: nat, v: nat) {
    b < |books| && c < |books[b].chapters| && v < |books[b].chapters[c]|
  }

  // ---------------------------------------------------------------------------
  // What the metadata list holds
  // ---------------------------------------------------------------------------

  lemma {:induction false} VersesMetaSpec(name: string, c: int, verses: seq<string>)
    ensures |VersesMeta(name, c, verses)| == |verses|
    ensures forall v :: 0 <= v < |verses| ==> VersesMeta(name, c, verses)[v] == VerseMeta(name, c, v + 1, verses[v])
  {
    if verses != [] {
      var init := verses[..|verses| - 1];
      VersesMetaSpec(name, c, init);
      assert forall v :: 0 <= v < |init| ==> init[v] == verses[v];
    }
  }

  lemma {:induction false} ChaptersMetaLength(name: string, chapters: seq<seq<string>>)
    ensures |ChaptersMeta(name, chapters)| == ChapterVerses(chapters)
  {
    if chapters != [] {
      ChaptersMetaLength(name, chapters[..|chapters| - 1]);
      VersesMetaSpec(name, |chapters|, chapters[|chapters| - 1]);
    }
  }

  /** Verse `v` of chapter `c` (0-based) is the entry numbered `(c + 1, v + 1)` with that chapter's text. */
  lemma {:induction false} ChaptersMetaAt(name: string, chapters: seq<seq<string>>, c: nat, v: nat)
    requires c < |chapters| && v < |chapters[c]|
    ensures ChapterVerses(chapters[..c]) + v < |ChaptersMeta(name, chapters)|
    ensures ChaptersMeta(name, chapters)[ChapterVerses(chapters[..c]) + v] == VerseMeta(name, c + 1, v + 1, chapters[c][v])
    decreases |chapters|
  {
    var n := |chapters|;
    var init := chapters[..n - 1];
    ChaptersMetaLength(name, init);
    VersesMetaSpec(name, n, chapters[n - 1]);
    if c == n - 1 {
      assert chapters[..c] == init;
    } else {
      ChaptersMetaAt(name, init, c, v);
      assert init[..c] == chapters[..c] && init[c] == chapters[c];
      SumOfStep(init, ChapterLength, c);
      SumOfMonotone(init, ChapterLength, c + 1, n - 1);
      assert init[..n - 1] == init;
    }
  }

  lemma {:induction false} CorpusMetaLength(books: seq<BookData>)
    ensures |CorpusMeta(books)| == TotalVerses(books)
  {
    if books != [] {
      CorpusMetaLength(books[..|books| - 1]);
      ChaptersMetaLength(books[|books| - 1].name, books[|books| - 1].chapters);
    }
  }

  /**
   * The entry at a verse's offset carries the book's name, the 1-based chapter
   * and verse numbers, and exactly that verse's text.
   */
  lemma {:induction false} CorpusMetaAt(books: seq<BookData>, b: nat, c: nat, v: nat)
    requires ValidPosition(books, b, c, v)
    ensures Offset(books, b, c, v) < |CorpusMeta(books)|
    ensures CorpusMeta(books)[Offset(books, b, c, v)] ==
      VerseMeta(books[b].name, c + 1, v + 1, books[b].chapters[c][v])
    decreases |books|
  {
    var n := |books|;
    var init := books[..n - 1];
    CorpusMetaLength(init);
    CorpusMetaLength(books);
    if b == n - 1 {
      ChaptersMetaAt(books[b].name, books[b].chapters, c, v);
      assert books[..b] == init;
    } else {
      assert ValidPosition(init, b, c, v);
      CorpusMetaAt(init, b, c, v);
      OffsetInPrefix(books, b, c, v);
    }
  }

  /** A verse of an earlier book lies inside the entries of the books before the last one. */
  lemma OffsetInPrefix(books: seq<BookData>, b: nat, c: nat, v: nat)
    requires ValidPosition(books, b, c, v) && b < |books| - 1
    ensures Offset(books[..|books| - 1], b, c, v) == Offset(books, b, c, v)
    ensures Offset(books, b, c, v) < TotalVerses(books[..|books| - 1])
  {
    var init := books[..|books| - 1];
    var chs := books[b].chapters;
    assert init[..b] == books[..b] && init[b] == books[b];
    assert chs[..|chs|] == chs;
    SumOfPrefixBelow(chs, ChapterLength, c, |chs|, v);
    SumOfPrefixBelow(init, BookVerses, b, |init|, ChapterVerses(chs[..c]) + v);
    assert init[..|init|] == init;
  }

  /** Something inside item `i` lies before the end of any longer prefix. */
  lemma SumOfPrefixBelow<T>(xs: seq<T>, size: T -> nat, i: nat, j: nat, x: nat)
    requires i < j <= |xs| && x < size(xs[i])
    ensures SumOf(xs[..i], size) + x < SumOf(xs[..j], size)
  {
    SumOfStep(xs, size, i);
    SumOfMonotone(xs, size, i + 1, j);
  }

  /** Within one book, entries carry its name, a chapter number in `1..count` and a verse number from 1. */
  lemma {:induction false} ChaptersMetaNumbers(name: string, chapters: seq<seq<string>>)
    ensures forall i :: 0 <= i < |ChaptersMeta(name, chapters)| ==>
      var m := ChaptersMeta(name, chapters)[i];
      m.book == name && 1 <= m.chapter <= |chapters| && m.verse >= 1
  {
    if chapters != [] {
      var n := |chapters|;
      var pre: seq<VerseMeta>, last: seq<VerseMeta> := ChaptersMeta(name, chapters[..n - 1]), VersesMeta(name, n, chapters[n - 1]);
      ChaptersMetaNumbers(name, chapters[..n - 1]);
      VersesMetaSpec(name, n, chapters[n - 1]);
      forall i | 0 <= i < |pre + last|
        ensures (pre + last)[i].book == name && 1 <= (pre + last)[i].chapter <= n && (pre + last)[i].verse >= 1
      {
        if i >= |pre| {
          assert (pre + last)[i] == last[i - |pre|];
        }
      }
    }
  }

  /** Every entry of the metadata list has 1-based chapter and verse numbers. */
  lemma {:induction false} CorpusMetaNumbers(books: seq<BookData>)
    ensures forall i :: 0 <= i < |CorpusMeta(books)| ==>
      CorpusMeta(books)[i].chapter >= 1 && CorpusMeta(books)[i].verse >= 1
  {
    if books != [] {
      var n := |books|;
      var pre: seq<VerseMeta>, last: seq<VerseMeta> := CorpusMeta(books[..n - 1]), ChaptersMeta(books[n - 1].name, books[n - 1].chapters);
      CorpusMetaNumbers(books[..n - 1]);
      ChaptersMetaNumbers(books[n - 1].name, books[n - 1].chapters);
      forall i | 0 <= i < |pre + last|
        ensures (pre + last)[i].chapter >= 1 && (pre + last)[i].verse >= 1
      {
        if i >= |pre| {
          assert (pre + last)[i] == last[i - |pre|];
        }
      }
    }
  }

  /** Verse `v` of chapter `c` (0-based) sits at position `i` of a run of chapters. */
  predicate ChapterPosition(chapters: seq<seq<string>>, c: nat, v: nat, i: nat) {
    c < |chapters| && v < |chapters[c]| && ChapterVerses(chapters[..c]) + v == i
  }

  /** Every entry of a run of chapters is some verse of it. */
  lemma {:induction false} ChaptersMetaLocate(name: string, chapters: seq<seq<string>>, i: nat)
    requires i < |ChaptersMeta(name, chapters)|
    ensures exists c: nat, v: nat :: ChapterPosition(chapters, c, v, i)
  {
    var n := |chapters|;
    var init := chapters[..n - 1];
    ChaptersMetaLength(name, init);
    ChaptersMetaLength(name, chapters);
    if i < |ChaptersMeta(name, init)| {
      ChaptersMetaLocate(name, init, i);
      var c: nat, v: nat :| ChapterPosition(init, c, v, i);
      assert init[..c] == chapters[..c] && init[c] == chapters[c];
      assert ChapterPosition(chapters, c, v, i);
    } else {
      SumOfStep(chapters, ChapterLength, n - 1);
      assert chapters[..n] == chapters;
      var c: nat, v: nat := n - 1, i - ChapterVerses(init);
      assert ChapterPosition(chapters, c, v, i);
    }
  }

  /** Every entry of the metadata list is some verse of the corpus: the offsets cover it. */
  lemma {:induction false} CorpusMetaLocate(books: seq<BookData>, i: nat)
    requires i < |CorpusMeta(books)|
    ensures exists b: nat, c: nat, v: nat :: ValidPosition(books, b, c, v) && Offset(books, b, c, v) == i
  {
    var n := |books|;
    var init := books[..n - 1];
    CorpusMetaLength(init);
    CorpusMetaLength(books);
    if i < |CorpusMeta(init)| {
      CorpusMetaLocate(init, i);
      var b: nat, c: nat, v: nat :| ValidPosition(init, b, c, v) && Offset(init, b, c, v) == i;
      OffsetInPrefix(books, b, c, v);
    } else {
      var last := books[n - 1];
      var j: nat := i - TotalVerses(init);
      SumOfStep(books, BookVerses, n - 1);
      assert books[..n] == books;
      ChaptersMetaLength(last.name, last.chapters);
      ChaptersMetaLocate(last.name, last.chapters, j);
      var c: nat, v: nat :| ChapterPosition(last.chapters, c, v, j);
      assert ValidPosition(books, n - 1, c, v) && Offset(books, n - 1, c, v) == i;
    }
  }

  predicate DistinctNames(books: seq<BookData>) {
    forall i, j :: 0 <= i < j < |books| ==> books[i].name != books[j].name
  }

  /**
   * When book names are distinct, the triple (name, chapter, verse) of an entry
   * identifies its verse: the only entry carrying it sits at that verse's offset.
   */
  lemma EntryIdentifiesVerse(books: seq<BookData>, b: nat, c: nat, v: nat, i: nat)
    requires DistinctNames(books) && ValidPosition(books, b, c, v)
    requires i < |CorpusMeta(books)|
    requires CorpusMeta(books)[i].book == books[b].name
    requires CorpusMeta(books)[i].chapter == c + 1 && CorpusMeta(books)[i].verse == v + 1
    ensures i == Offset(books, b, c, v)
  {
    CorpusMetaLocate(books, i);
    var b': nat, c': nat, v': nat :| ValidPosition(books, b', c', v') && Offset(books, b', c', v') == i;
    CorpusMetaAt(books, b', c', v');
    assert books[b'].name == books[b].name;
    assert b' == b;
  }

  /**
   * Entries are ordered by book, then chapter, then verse: a verse that comes
   * earlier in the corpus has a smaller offset.
   */
  lemma OffsetOrdered(books: seq<BookData>, b: nat, c: nat, v: nat, b': nat, c': nat, v': nat)
    requires ValidPosition(books, b, c, v) && ValidPosition(books, b', c', v')
    requires b < b' || (b == b' && c < c') || (b == b' && c == c' && v < v')
    ensures Offset(books, b, c, v) < Offset(books, b', c', v')
  {
    var chs := books[b].chapters;
    if b < b' {
      SumOfStep(books, BookVerses, b);
      SumOfMonotone(books, BookVerses, b + 1, b');
      SumOfStep(chs, ChapterLength, c);
      SumOfMonotone(chs, ChapterLength, c + 1, |chs|);
      assert chs[..|chs|] == chs;
    } else if c < c' {
      SumOfStep(chs, ChapterLength, c);
      SumOfMonotone(chs, ChapterLength, c + 1, c');
    }
  }

  // ---------------------------------------------------------------------------
  // The loop
  // ---------------------------------------------------------------------------

  lemma VersesMetaSnoc(name: string, c: int, verses: seq<string>, v: nat)
    requires v < |verses|
    ensures VersesMeta(name, c, verses[..v + 1]) == VersesMeta(name, c, verses[..v]) + [VerseMeta(name, c, v + 1, verses[v])]
  {
    assert verses[..v + 1][..v] == verses[..v];
  }

  lemma ChaptersMetaSnoc(name: string, chapters: seq<seq<string>>, c: nat)
    requires c < |chapters|
    ensures ChaptersMeta(name, chapters[..c + 1]) == ChaptersMeta(name, chapters[..c]) + VersesMeta(name, c + 1, chapters[c])
    ensures forall pre: seq<VerseMeta> {:trigger pre + ChaptersMeta(name, chapters[..c + 1])} ::
      pre + ChaptersMeta(name, chapters[..c]) + VersesMeta(name, c + 1, chapters[c]) == pre + ChaptersMeta(name, chapters[..c + 1])
  {
    assert chapters[..c + 1][..c] == chapters[..c];
  }

  lemma CorpusMetaSnoc(books: seq<BookData>, b: nat)
    requires b < |books|
    ensures CorpusMeta(books[..b + 1]) == CorpusMeta(books[..b]) + ChaptersMeta(books[b].name, books[b].chapters)
  {
    assert books[..b + 1][..b] == books[..b];
  }

  /** Index `i` of both lists refers to the same verse. */
  predicate Aligned<E(==)>(embeddings: seq<E>, metadata: seq<VerseMeta>, embed: string -> E) {
    |embeddings| == |metadata| &&
    forall i :: 0 <= i < |metadata| ==> embeddings[i] == embed(EmbeddingInput(metadata[i]))
  }

  lemma AlignedAppend<E>(embeddings: seq<E>, metadata: seq<VerseMeta>, embed: string -> E, m: VerseMeta)
    requires Aligned(embeddings, metadata, embed)
    ensures Aligned(embeddings + [embed(EmbeddingInput(m))], metadata + [m], embed)
  {
  }

  /**
   * The innermost loop (ml/generate_embeddings.py:28-37): one entry and one
   * embedding per verse of chapter `c`, appended in verse order.
   */
  method EmbedChapter<E(==)>(name: string, c: int, chapter: seq<string>, embed: string -> E,
                             embeddings0: seq<E>, metadata0: seq<VerseMeta>)
    returns (embeddings: seq<E>, metadata: seq<VerseMeta>)
    requires Aligned(embeddings0, metadata0, embed)
    ensures metadata == metadata0 + VersesMeta(name, c, chapter)
    ensures Aligned(embeddings, metadata, embed)
  {
    embeddings, metadata := embeddings0, metadata0;
    var v := 0;
    assert metadata == metadata0 + VersesMeta(name, c, chapter[..0]);
    while v < |chapter|
      invariant 0 <= v <= |chapter|
      invariant metadata == metadata0 + VersesMeta(name, c, chapter[..v])
      invariant Aligned(embeddings, metadata, embed)
    {
      var m := VerseMeta(name, c, v + 1, chapter[v]);
      AlignedAppend(embeddings, metadata, embed, m);
      VersesMetaSnoc(name, c, chapter, v);
      embeddings := embeddings + [embed(EmbeddingInput(m))];
      metadata := metadata + [m];
      v := v + 1;
    }
    assert chapter[..v] == chapter;
  }

  /** The chapter loop (ml/generate_embeddings.py:27-37): the chapters of one book, numbered from 1. */
  method EmbedBook<E(==)>(book: BookData, embed: string -> E, embeddings0: seq<E>, metadata0: seq<VerseMeta>)
    returns (embeddings: seq<E>, metadata: seq<VerseMeta>)
    requires Aligned(embeddings0, metadata0, embed)
    ensures metadata == metadata0 + ChaptersMeta(book.name, book.chapters)
    ensures Aligned(embeddings, metadata, embed)
  {
    embeddings, metadata := embeddings0, metadata0;
    var c := 0;
    assert metadata == metadata0 + ChaptersMeta(book.name, book.chapters[..0]);
    while c < |book.chapters|
      invariant 0 <= c <= |book.chapters|
      invariant metadata == metadata0 + ChaptersMeta(book.name, book.chapters[..c])
      invariant Aligned(embeddings, metadata, embed)
    {
      embeddings, metadata := EmbedChapter(book.name, c + 1, book.chapters[c], embed, embeddings, metadata);
      ChaptersMetaSnoc(book.name, book.chapters, c);
      c := c + 1;
    }
    assert book.chapters[..c] == book.chapters;
  }

  /**
   * The book loop of ml/generate_embeddings.py:23-37: `metadata` is the
   * flattened corpus and `embeddings[i]` is the embedding of entry `i`.
   */
  method BuildIndex<E(==)>(books: seq<BookData>, embed: string -> E) returns (embeddings: seq<E>, metadata: seq<VerseMeta>)
    ensures metadata == CorpusMeta(books)
    ensures |embeddings| == |metadata| == TotalVerses(books)
    ensures forall i :: 0 <= i < |metadata| ==> embeddings[i] == embed(EmbeddingInput(metadata[i]))
  {
    embeddings, metadata := [], [];
    var b := 0;
    while b < |books|
      invariant 0 <= b <= |books|
      invariant metadata == CorpusMeta(books[..b])
      invariant Aligned(embeddings, metadata, embed)
    {
      embeddings, metadata := EmbedBook(books[b], embed, embeddings, metadata);
      CorpusMetaSnoc(books, b);
      b := b + 1;
    }
    assert books[..b] == books;
    CorpusMetaLength(books);
  }
}
