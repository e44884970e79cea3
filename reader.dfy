/**
 * The reader component of client/src/StudyBible.tsx: its React state as the
 * fields of a class, its event handlers as methods, the chapter-load effect
 * as a method that React's commit phase runs when the selected book or
 * chapter changed, and its rendering decisions as functions of the state.
 *
 * The verse-click handler is cut at its `await`: `Click` does the part before
 * the request and returns the request it sends, and `Complete` applies the
 * outcome of that request whenever it arrives.
 */
module Reader {
  import opened Wrappers
  import opened Decimal
  import Api

  /** A book of the bundled corpus (client/src/StudyBible.tsx:12-16). */
  datatype Book = Book(abbr: string, name: string, chapters: seq<seq<string>>)

  /** The bundled corpus: its keys in object order and the book under each key. */
  datatype Corpus = Corpus(keys: seq<string>, books: map<string, Book>)

  /** The selected verse: its number and its text. */
  datatype Selection = Selection(verse: int, content: string)

  /** How the related-verses request ended. */
  datatype Outcome =
    | Success(data: seq<Api.RelatedVerse>)    // `response.ok`, body parsed
    | HttpError(body: string)                  // `!response.ok`, body text
    | Thrown(message: Option<string>)          // fetch or parsing threw: an Error's message, or a non-Error value

  const RelatedFailurePrefix := "Failed to fetch related verses: "
  const RelatedDefaultError := "An error occurred while fetching related verses"
  /** The `TypeError` message of `bookData.name` on `undefined` (V8's wording). */
  const MissingBookTypeError := "Cannot read properties of undefined (reading 'name')"

  /** `Object.keys(bibleData)[0]`; on an empty corpus JavaScript gives `undefined`, used as the key "undefined". */
  function FirstKey(corpus: Corpus): string {
    if corpus.keys == [] then "undefined" else corpus.keys[0]
  }

  function BookNotFound(key: string): string {
    "Book \"" + key + "\" not found"
  }

  function ChapterNotFound(n: int, name: string): string {
    "Chapter " + IntToString(n) + " not found in " + name
  }

  /** `chapters[n - 1]` exists for the book under `key`. */
  predicate Loadable(corpus: Corpus, key: string, n: int) {
    key in corpus.books && 1 <= n <= |corpus.books[key].chapters|
  }

  /** What the chapter-load effect puts in `chapterContent`. */
  function ContentOf(corpus: Corpus, key: string, n: int): seq<string> {
    if Loadable(corpus, key, n) then corpus.books[key].chapters[n - 1] else []
  }

  // ---------------------------------------------------------------------------
  // Rendering decisions
  // ---------------------------------------------------------------------------

  /** `bibleData[selectedBook]?.chapters.length || 0` (client/src/StudyBible.tsx:114). */
  function ChapterCount(corpus: Corpus, key: string): nat {
    if key in corpus.books then |corpus.books[key].chapters| else 0
  }

  /** The chapter select's options `1..count` (client/src/StudyBible.tsx:138-139). */
  function ChapterOptions(corpus: Corpus, key: string): seq<int> {
    seq(ChapterCount(corpus, key), i => i + 1)
  }

  /** The options offered are exactly the chapters that load without error, in increasing order. */
  lemma ChapterOptionsLoadable(corpus: Corpus, key: string)
    ensures forall n :: n in ChapterOptions(corpus, key) <==> Loadable(corpus, key, n)
    ensures forall i, j :: 0 <= i < j < |ChapterOptions(corpus, key)| ==> ChapterOptions(corpus, key)[i] < ChapterOptions(corpus, key)[j]
  {
    var opts := ChapterOptions(corpus, key);
    forall n | Loadable(corpus, key, n)
      ensures n in opts
    {
      assert opts[n - 1] == n;
    }
  }

  /** One rendered verse: its number, its text and its two highlight flags. */
  datatype VerseView = VerseView(number: int, text: string, hovered: bool, selected: bool)

  /** The verse spans of client/src/StudyBible.tsx:171-181. */
  function VerseViews(content: seq<string>, hover: Option<int>, selection: Option<Selection>): seq<VerseView> {
    seq(|content|, i requires 0 <= i < |content| =>
      VerseView(i + 1, content[i], hover == Some(i + 1), selection.Some? && selection.value.verse == i + 1))
  }

  /** At most one verse carries each highlight, and each flag tests the verse number alone. */
  lemma HighlightsUnique(content: seq<string>, hover: Option<int>, selection: Option<Selection>)
    ensures forall i, j :: 0 <= i < j < |VerseViews(content, hover, selection)| ==>
      !(VerseViews(content, hover, selection)[i].selected && VerseViews(content, hover, selection)[j].selected) &&
      !(VerseViews(content, hover, selection)[i].hovered && VerseViews(content, hover, selection)[j].hovered)
    ensures forall i :: 0 <= i < |content| ==>
      && VerseViews(content, hover, selection)[i].number == i + 1
      && VerseViews(content, hover, selection)[i].text == content[i]
      && (VerseViews(content, hover, selection)[i].hovered <==> hover == Some(i + 1))
      && (VerseViews(content, hover, selection)[i].selected <==> selection.Some? && selection.value.verse == i + 1)
  {
  }

  /**
   * Clicking the span at index `i` passes `(i + 1, content[i])`; once that
   * selection is made, that span and no other is highlighted as selected.
   */
  lemma ClickedVerseIsSelected(content: seq<string>, hover: Option<int>, i: nat)
    requires i < |content|
    ensures var views := VerseViews(content, hover, Some(Selection(i + 1, content[i])));
      views[i].selected && views[i].number == i + 1 && views[i].text == content[i] &&
      forall j :: 0 <= j < |views| && j != i ==> !views[j].selected
  {
  }

  /** The left pane (client/src/StudyBible.tsx:159-184). */
  datatype MainView = Spinner | ErrorAlert(message: string) | Verses(views: seq<VerseView>)

  /** An error shows only when it is truthy: JavaScript treats the empty message like `null`. */
  function MainPane(isLoading: bool, error: Option<string>, views: seq<VerseView>): MainView {
    if isLoading then Spinner else if error.Some? && error.value != "" then ErrorAlert(error.value) else Verses(views)
  }

  /** The related-verses card (client/src/StudyBible.tsx:194-214). */
  datatype PanelView = LoadingRelated | RelatedList(verses: seq<Api.RelatedVerse>) | NoneFound | Prompt

  function RelatedPanel(isLoadingRelated: bool, selection: Option<Selection>, related: seq<Api.RelatedVerse>): PanelView {
    if isLoadingRelated then LoadingRelated
    else if selection.Some? then (if |related| > 0 then RelatedList(related) else NoneFound)
    else Prompt
  }

  /**
   * The card shows the loading line while a request is pending; otherwise the
   * list, in order, when a verse is selected and the list is non-empty, the
   * "none found" line when it is empty, and the prompt when nothing is selected.
   */
  lemma RelatedPanelCases(isLoadingRelated: bool, selection: Option<Selection>, related: seq<Api.RelatedVerse>)
    ensures RelatedPanel(isLoadingRelated, selection, related) == LoadingRelated <==> isLoadingRelated
    ensures RelatedPanel(isLoadingRelated, selection, related).RelatedList? <==>
      !isLoadingRelated && selection.Some? && related != []
    ensures RelatedPanel(isLoadingRelated, selection, related).RelatedList? ==>
      RelatedPanel(isLoadingRelated, selection, related).verses == related
    ensures RelatedPanel(isLoadingRelated, selection, related) == NoneFound <==>
      !isLoadingRelated && selection.Some? && related == []
    ensures RelatedPanel(isLoadingRelated, selection, related) == Prompt <==> !isLoadingRelated && selection.None?
  {
  }

  // ---------------------------------------------------------------------------
  // The component's state and handlers
  // ---------------------------------------------------------------------------

  class StudyBible {
    const corpus: Corpus
    var selectedBook: string
    var selectedChapter: int
    var chapterContent: seq<string>
    var hoverVerse: Option<int>
    var selectedVerse: Option<Selection>
    var isLoading: bool
    var error: Option<string>
    var relatedVerses: seq<Api.RelatedVerse>
    var isLoadingRelated: bool
    /** The (book, chapter) the chapter-load effect last ran for: React's dependency record. */
    var lastLoaded: Option<(string, int)>

    /**
     * The state between events: the load effect runs to completion without
     * awaiting, so `isLoading` is never left set, and the chapter text is
     * that of the last loaded (book, chapter).
     */
    predicate Valid()
      reads this
    {
      && !isLoading
      && (lastLoaded.None? ==> chapterContent == [])
      && (lastLoaded.Some? ==> chapterContent == ContentOf(corpus, lastLoaded.value.0, lastLoaded.value.1))
    }

    /** The initial state (client/src/StudyBible.tsx:24-33), before the first effect. */
    constructor(corpus: Corpus)
      ensures this.corpus == corpus
      ensures selectedBook == FirstKey(corpus) && selectedChapter == 1
      ensures chapterContent == [] && hoverVerse == None && selectedVerse == None
      ensures !isLoading && error == None && relatedVerses == [] && !isLoadingRelated
      ensures lastLoaded == None
      ensures Valid()
    {
      this.corpus := corpus;
      selectedBook := FirstKey(corpus);
      selectedChapter := 1;
      chapterContent := [];
      hoverVerse := None;
      selectedVerse := None;
      isLoading := false;
      error := None;
      relatedVerses := [];
      isLoadingRelated := false;
      lastLoaded := None;
    }

    /**
     * The chapter-load effect (client/src/StudyBible.tsx:35-59), run by React
     * after a render whose `[selectedBook, selectedChapter]` differ from the
     * previous run's, and on mount.
     */
    method Commit()
      requires Valid()
      modifies this
      ensures Valid()
      ensures lastLoaded == Some((selectedBook, selectedChapter))
      ensures chapterContent == ContentOf(corpus, selectedBook, selectedChapter)
      ensures old(lastLoaded) == Some((old(selectedBook), old(selectedChapter))) ==> error == old(error)
      ensures old(lastLoaded) != Some((old(selectedBook), old(selectedChapter))) ==>
        && (Loadable(corpus, selectedBook, selectedChapter) ==>
              chapterContent == corpus.books[selectedBook].chapters[selectedChapter - 1] && error == None)
        && (selectedBook !in corpus.books ==> chapterContent == [] && error == Some(BookNotFound(selectedBook)))
        && (selectedBook in corpus.books && !Loadable(corpus, selectedBook, selectedChapter) ==>
              chapterContent == [] && error == Some(ChapterNotFound(selectedChapter, corpus.books[selectedBook].name)))
      ensures selectedBook == old(selectedBook) && selectedChapter == old(selectedChapter)
      ensures hoverVerse == old(hoverVerse) && selectedVerse == old(selectedVerse)
      ensures relatedVerses == old(relatedVerses) && isLoadingRelated == old(isLoadingRelated)
    {
      if lastLoaded != Some((selectedBook, selectedChapter)) {
        isLoading := true;
        error := None;
        if selectedBook !in corpus.books {
          error := Some(BookNotFound(selectedBook));
          chapterContent := [];
        } else if !(1 <= selectedChapter <= |corpus.books[selectedBook].chapters|) {
          error := Some(ChapterNotFound(selectedChapter, corpus.books[selectedBook].name));
          chapterContent := [];
        } else {
          chapterContent := corpus.books[selectedBook].chapters[selectedChapter - 1];
        }
        isLoading := false;
        lastLoaded := Some((selectedBook, selectedChapter));
      }
    }

    /** `handleBookChange` (client/src/StudyBible.tsx:61-66). */
    method BookChange(book: string)
      requires Valid()
      modifies this
      ensures Valid()
      ensures selectedBook == book && selectedChapter == 1 && selectedVerse == None && relatedVerses == []
      ensures chapterContent == old(chapterContent) && hoverVerse == old(hoverVerse) && isLoading == old(isLoading)
      ensures error == old(error) && isLoadingRelated == old(isLoadingRelated) && lastLoaded == old(lastLoaded)
    {
      selectedBook := book;
      selectedChapter := 1;
      selectedVerse := None;
      relatedVerses := [];
    }

    /** The chapter select's `onValueChange` (client/src/StudyBible.tsx:133): only the chapter changes. */
    method ChangeChapter(n: int)
      requires Valid()
      modifies this
      ensures Valid()
      ensures selectedChapter == n
      ensures selectedBook == old(selectedBook) && chapterContent == old(chapterContent) && hoverVerse == old(hoverVerse)
      ensures selectedVerse == old(selectedVerse) && isLoading == old(isLoading) && error == old(error)
      ensures relatedVerses == old(relatedVerses) && isLoadingRelated == old(isLoadingRelated) && lastLoaded == old(lastLoaded)
    {
      selectedChapter := n;
    }

    /** `handleVerseHover` (client/src/StudyBible.tsx:68-70). */
    method Hover(verse: int)
      requires Valid()
      modifies this
      ensures Valid()
      ensures hoverVerse == Some(verse)
      ensures selectedBook == old(selectedBook) && selectedChapter == old(selectedChapter) && chapterContent == old(chapterContent)
      ensures selectedVerse == old(selectedVerse) && isLoading == old(isLoading) && error == old(error)
      ensures relatedVerses == old(relatedVerses) && isLoadingRelated == old(isLoadingRelated) && lastLoaded == old(lastLoaded)
    {
      hoverVerse := Some(verse);
    }

    /** The span's `onMouseLeave` (client/src/StudyBible.tsx:175). */
    method Unhover()
      requires Valid()
      modifies this
      ensures Valid()
      ensures hoverVerse == None
      ensures selectedBook == old(selectedBook) && selectedChapter == old(selectedChapter) && chapterContent == old(chapterContent)
      ensures selectedVerse == old(selectedVerse) && isLoading == old(isLoading) && error == old(error)
      ensures relatedVerses == old(relatedVerses) && isLoadingRelated == old(isLoadingRelated) && lastLoaded == old(lastLoaded)
    {
      hoverVerse := None;
    }

    /**
     * `handleVerseClick` up to its `await` (client/src/StudyBible.tsx:72-92):
     * a click on the selected verse number deselects it; any other click
     * selects the verse and sends one request, unless the selected book is
     * missing, where reading its name throws before anything is sent.
     */
    method Click(verse: int, content: string) returns (request: Option<Api.Request>)
      requires Valid()
      modifies this
      ensures Valid()
      ensures old(selectedVerse).Some? && old(selectedVerse).value.verse == verse ==>
        && request == None && selectedVerse == None && relatedVerses == []
        && isLoadingRelated == old(isLoadingRelated) && error == old(error)
      ensures !(old(selectedVerse).Some? && old(selectedVerse).value.verse == verse) ==>
        selectedVerse == Some(Selection(verse, content))
      ensures !(old(selectedVerse).Some? && old(selectedVerse).value.verse == verse) && selectedBook in corpus.books ==>
        && request == Some(Api.Request(corpus.books[selectedBook].name, selectedChapter, verse))
        && isLoadingRelated && error == None && relatedVerses == old(relatedVerses)
      ensures !(old(selectedVerse).Some? && old(selectedVerse).value.verse == verse) && selectedBook !in corpus.books ==>
        && request == None && !isLoadingRelated && error == Some(MissingBookTypeError) && relatedVerses == []
      ensures selectedBook == old(selectedBook) && selectedChapter == old(selectedChapter) && chapterContent == old(chapterContent)
      ensures hoverVerse == old(hoverVerse) && isLoading == old(isLoading) && lastLoaded == old(lastLoaded)
    {
      if selectedVerse.Some? && selectedVerse.value.verse == verse {
        selectedVerse := None;
        relatedVerses := [];
        request := None;
      } else {
        selectedVerse := Some(Selection(verse, content));
        isLoadingRelated := true;
        error := None;
        if selectedBook in corpus.books {
          request := Some(Api.Request(corpus.books[selectedBook].name, selectedChapter, verse));
        } else {
          error := Some(MissingBookTypeError);
          relatedVerses := [];
          isLoadingRelated := false;
          request := None;
        }
      }
    }

    /**
     * The rest of `handleVerseClick` (client/src/StudyBible.tsx:93-104), applied
     * whenever the response arrives, whatever is selected by then.
     */
    method Complete(outcome: Outcome)
      requires Valid()
      modifies this
      ensures Valid()
      ensures !isLoadingRelated
      ensures outcome.Success? ==> relatedVerses == outcome.data && error == old(error)
      ensures outcome.HttpError? ==> relatedVerses == [] && error == Some(RelatedFailurePrefix + outcome.body)
      ensures outcome.Thrown? ==> (relatedVerses == [] &&
        error == Some(if outcome.message.Some? then outcome.message.value else RelatedDefaultError))
      ensures selectedBook == old(selectedBook) && selectedChapter == old(selectedChapter) && chapterContent == old(chapterContent)
      ensures hoverVerse == old(hoverVerse) && selectedVerse == old(selectedVerse) && isLoading == old(isLoading)
      ensures lastLoaded == old(lastLoaded)
    {
      match outcome {
        case Success(data) =>
          relatedVerses := data;
        case HttpError(body) =>
          error := Some(RelatedFailurePrefix + body);
          relatedVerses := [];
        case Thrown(message) =>
          error := Some(if message.Some? then message.value else RelatedDefaultError);
          relatedVerses := [];
      }
      isLoadingRelated := false;
    }

    /** The left pane as rendered now; never the spinner between events. */
    function Main(): (view: MainView)
      reads this
      requires Valid()
      ensures !view.Spinner?
      ensures view.Verses? <==> (error.None? || error == Some(""))
      ensures view.ErrorAlert? ==> Some(view.message) == error
    {
      MainPane(isLoading, error, VerseViews(chapterContent, hoverVerse, selectedVerse))
    }

    /** The related-verses card as rendered now. */
    function Panel(): PanelView
      reads this
    {
      RelatedPanel(isLoadingRelated, selectedVerse, relatedVerses)
    }
  }

  // ---------------------------------------------------------------------------
  // Event sequences
  // ---------------------------------------------------------------------------

  /** The first book of the corpus has a first chapter with at least `verses` verses. */
  predicate OpensWith(corpus: Corpus, verses: nat) {
    Loadable(corpus, FirstKey(corpus), 1) && |corpus.books[FirstKey(corpus)].chapters[0]| >= verses
  }

  /** Mounting renders chapter 1 of the first book, or the load error, and the click prompt. */
  method Mount(corpus: Corpus) returns (main: MainView, panel: PanelView)
    ensures Loadable(corpus, FirstKey(corpus), 1) ==>
      main == Verses(VerseViews(corpus.books[FirstKey(corpus)].chapters[0], None, None))
    ensures FirstKey(corpus) !in corpus.books ==> main == ErrorAlert(BookNotFound(FirstKey(corpus)))
    ensures FirstKey(corpus) in corpus.books && corpus.books[FirstKey(corpus)].chapters == [] ==>
      main == ErrorAlert(ChapterNotFound(1, corpus.books[FirstKey(corpus)].name))
    ensures panel == Prompt
  {
    var reader := new StudyBible(corpus);
    reader.Commit();
    main := reader.Main();
    panel := reader.Panel();
  }

  /**
   * Clicking verse 1 sends one request for it, the answer is listed under the
   * selection, and clicking verse 1 again sends nothing and brings back the prompt.
   */
  method RoundTrip(corpus: Corpus, data: seq<Api.RelatedVerse>)
    returns (sent: Option<Api.Request>, shown: PanelView, resent: Option<Api.Request>, cleared: PanelView)
    requires OpensWith(corpus, 1) && data != []
    ensures sent == Some(Api.Request(corpus.books[FirstKey(corpus)].name, 1, 1))
    ensures shown == RelatedList(data)
    ensures resent == None && cleared == Prompt
  {
    var reader := new StudyBible(corpus);
    reader.Commit();
    sent := reader.Click(1, reader.chapterContent[0]);
    reader.Complete(Success(data));
    shown := reader.Panel();
    resent := reader.Click(1, reader.chapterContent[0]);
    cleared := reader.Panel();
  }

  /**
   * Responses are applied in arrival order with no check against the current
   * selection: after clicking verse 1 then verse 2, a late answer for verse 1
   * is what the card lists under the selection of verse 2.
   */
  method LateResponseWins(corpus: Corpus, forFirst: seq<Api.RelatedVerse>, forSecond: seq<Api.RelatedVerse>)
    returns (first: Option<Api.Request>, second: Option<Api.Request>, selection: Option<Selection>, panel: PanelView)
    requires OpensWith(corpus, 2) && forFirst != []
    ensures first == Some(Api.Request(corpus.books[FirstKey(corpus)].name, 1, 1))
    ensures second == Some(Api.Request(corpus.books[FirstKey(corpus)].name, 1, 2))
    ensures selection == Some(Selection(2, corpus.books[FirstKey(corpus)].chapters[0][1]))
    ensures panel == RelatedList(forFirst)
  {
    var reader := new StudyBible(corpus);
    reader.Commit();
    first := reader.Click(1, reader.chapterContent[0]);
    second := reader.Click(2, reader.chapterContent[1]);
    reader.Complete(Success(forSecond));
    reader.Complete(Success(forFirst));
    selection := reader.selectedVerse;
    panel := reader.Panel();
  }

  /**
   * The chapter load and the related-verses request share one error field, so
   * a failed request replaces the chapter text with the request's error,
   * while the chapter text itself is kept.
   */
  method FailureHidesChapter(corpus: Corpus, body: string) returns (main: MainView, content: seq<string>)
    requires OpensWith(corpus, 1)
    ensures main == ErrorAlert(RelatedFailurePrefix + body)
    ensures content == corpus.books[FirstKey(corpus)].chapters[0]
  {
    var reader := new StudyBible(corpus);
    reader.Commit();
    var _ := reader.Click(1, reader.chapterContent[0]);
    reader.Complete(HttpError(body));
    main := reader.Main();
    content := reader.chapterContent;
  }

  /**
   * A throw whose message is empty (`new Error()`) clears the related list
   * but leaves the chapter shown, since an empty error is falsy.
   */
  method EmptyErrorKeepsChapter(corpus: Corpus) returns (main: MainView, panel: PanelView)
    requires OpensWith(corpus, 1)
    ensures main == Verses(VerseViews(corpus.books[FirstKey(corpus)].chapters[0], None,
      Some(Selection(1, corpus.books[FirstKey(corpus)].chapters[0][0]))))
    ensures panel == NoneFound
  {
    var reader := new StudyBible(corpus);
    reader.Commit();
    var _ := reader.Click(1, reader.chapterContent[0]);
    reader.Complete(Thrown(Some("")));
    main := reader.Main();
    panel := reader.Panel();
  }

  /**
   * Deselecting while a request is pending leaves the loading card up; the
   * late answer then fills the (hidden) list and the prompt is shown.
   */
  method ToggleOffWhileLoading(corpus: Corpus, data: seq<Api.RelatedVerse>)
    returns (pending: PanelView, settled: PanelView, related: seq<Api.RelatedVerse>)
    requires OpensWith(corpus, 1)
    ensures pending == LoadingRelated
    ensures settled == Prompt
    ensures related == data
  {
    var reader := new StudyBible(corpus);
    reader.Commit();
    var _ := reader.Click(1, reader.chapterContent[0]);
    var _ := reader.Click(1, reader.chapterContent[0]);
    pending := reader.Panel();
    reader.Complete(Success(data));
    settled := reader.Panel();
    related := reader.relatedVerses;
  }

  /**
   * Changing chapter keeps the selection and the related list: the verse with
   * the selected number is highlighted in the new chapter.
   */
  method ChapterChangeKeepsSelection(corpus: Corpus, data: seq<Api.RelatedVerse>)
    returns (views: seq<VerseView>, panel: PanelView)
    requires OpensWith(corpus, 1) && Loadable(corpus, FirstKey(corpus), 2)
    requires corpus.books[FirstKey(corpus)].chapters[1] != [] && data != []
    ensures views == VerseViews(corpus.books[FirstKey(corpus)].chapters[1], None,
      Some(Selection(1, corpus.books[FirstKey(corpus)].chapters[0][0])))
    ensures views[0].selected
    ensures panel == RelatedList(data)
  {
    var reader := new StudyBible(corpus);
    reader.Commit();
    var _ := reader.Click(1, reader.chapterContent[0]);
    reader.Complete(Success(data));
    reader.ChangeChapter(2);
    reader.Commit();
    var main := reader.Main();
    views := main.views;
    panel := reader.Panel();
  }

  /** Choosing a book opens its first chapter and clears the selection and the related list. */
  method OpenBook(corpus: Corpus, key: string) returns (main: MainView, panel: PanelView)
    requires OpensWith(corpus, 1) && Loadable(corpus, key, 1)
    ensures main == Verses(VerseViews(corpus.books[key].chapters[0], None, None))
    ensures panel == Prompt
  {
    var reader := new StudyBible(corpus);
    reader.Commit();
    var _ := reader.Click(1, reader.chapterContent[0]);
    reader.Complete(Success([]));
    reader.BookChange(key);
    reader.Commit();
    main := reader.Main();
    panel := reader.Panel();
  }
}
