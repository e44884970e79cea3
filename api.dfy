/**
 * The wire contract between the reader and the similarity-search endpoint
 * `POST /api/similar_verses`.
 */
module Api {
  import opened Decimal

  /** The request body the reader sends: `{book, chapter, verse}`. */
  datatype Request = Request(book: string, chapter: int, verse: int)

  /** One element of the endpoint's reply: a citation and its text. */
  datatype RelatedVerse = RelatedVerse(reference: string, text: string)

  /** The citation `"{book} {chapter}:{verse}"` used by the server and by the embedding input. */
  function Reference(book: string, chapter: int, verse: int): (r: string)
    ensures |r| > |book| + 3
  {
    book + " " + IntToString(chapter) + ":" + IntToString(verse)
  }

  /** Distinct citations of the same book never print alike. */
  lemma {:induction false} ReferenceInjective(book: string, c1: int, v1: int, c2: int, v2: int)
    requires Reference(book, c1, v1) == Reference(book, c2, v2)
    ensures c1 == c2 && v1 == v2
  {
    var s1, s2 := IntToString(c1), IntToString(c2);
    var t1, t2 := IntToString(v1), IntToString(v2);
    var r := Reference(book, c1, v1);
    assert r[|book| + 1..] == s1 + ":" + t1 == s2 + ":" + t2;
    // Neither printed integer contains ':', so the colon splits both the same way.
    NoColon(c1); NoColon(c2); NoColon(v1); NoColon(v2);
    var a, b := s1 + ":" + t1, s2 + ":" + t2;
    assert a[|s1|] == ':' && b[|s2|] == ':';
    assert forall k :: 0 <= k < |s1| ==> a[k] != ':';
    assert forall k :: 0 <= k < |s2| ==> b[k] != ':';
    assert |s1| == |s2|;
    assert s1 == (s1 + ":" + t1)[..|s1|] == (s2 + ":" + t2)[..|s2|] == s2;
    assert t1 == (s1 + ":" + t1)[|s1| + 1..] == (s2 + ":" + t2)[|s2| + 1..] == t2;
    IntToStringInjective(c1, c2);
    IntToStringInjective(v1, v2);
  }

  lemma NoColon(i: int)
    ensures forall k :: 0 <= k < |IntToString(i)| ==> IntToString(i)[k] != ':'
  {
    var s := IntToString(i);
    if i < 0 {
      assert forall k :: 1 <= k < |s| ==> s[k] == NatToString(-i)[k - 1];
    }
  }
}
