/**
 * The text preparation of ml/prepare_data.py: `clean_text`, `split_into_paragraphs`
 * and the per-line parse of the verse CSV that builds the `bible_verses` list.
 * Python's `\w` and `\s` are classified as Python does below U+0080.
 */
module PrepareData {
  import opened Wrappers
  import opened Decimal

  // ---------------------------------------------------------------------------
  // Character classes
  // ---------------------------------------------------------------------------

  /**
   * Python's `\s` (and what `str.strip()` removes) below U+0080: space, tab,
   * newline, carriage return, vertical tab, form feed and the four separators
   * U+001C to U+001F.
   */
  predicate IsSpace(c: char) {
    c == ' ' || c == '\t' || c == '\n' || c == '\r' || c == '\U{0B}' || c == '\U{0C}' || '\U{1C}' <= c <= '\U{1F}'
  }

  /** Python's `\w` below U+0080. */
  predicate IsWordChar(c: char) {
    'a' <= c <= 'z' || 'A' <= c <= 'Z' || '0' <= c <= '9' || c == '_'
  }

  /** The characters `clean_text` keeps: `[\w\s.,;:()\[\]{}]`. */
  predicate Allowed(c: char) {
    IsWordChar(c) || IsSpace(c) || c in ".,;:()[]{}"
  }

  predicate AllAllowed(s: string) {
    forall i :: 0 <= i < |s| ==> Allowed(s[i])
  }

  predicate NoSpace(s: string) {
    forall i :: 0 <= i < |s| ==> !IsSpace(s[i])
  }

  /**
   * The shape of a cleaned text: whitespace only as single spaces, never two
   * in a row, never at either end.
   */
  predicate Normalized(t: string) {
    && (forall i :: 0 <= i < |t| && IsSpace(t[i]) ==> t[i] == ' ')
    && (forall i :: 0 <= i < |t| - 1 ==> !(IsSpace(t[i]) && IsSpace(t[i + 1])))
    && (|t| > 0 ==> !IsSpace(t[0]) && !IsSpace(t[|t| - 1]))
  }

  // ---------------------------------------------------------------------------
  // clean_text
  // ---------------------------------------------------------------------------

  /** `re.sub(r'[^\w\s\.\,\;\:\(\)\[\]\{\}]', '', text)`. */
  function RemoveDisallowed(s: string): (r: string)
    ensures |r| <= |s|
  {
    if s == [] then []
    else (if Allowed(s[0]) then [s[0]] else []) + RemoveDisallowed(s[1..])
  }

  /** The substitution leaves only allowed characters and changes nothing in an allowed text. */
  lemma {:induction false} RemoveDisallowedSpec(s: string)
    ensures AllAllowed(RemoveDisallowed(s))
    ensures AllAllowed(s) ==> RemoveDisallowed(s) == s
  {
    if s != [] {
      var r := RemoveDisallowed(s[1..]);
      RemoveDisallowedSpec(s[1..]);
      if Allowed(s[0]) {
        assert forall i :: 1 <= i < |[s[0]] + r| ==> ([s[0]] + r)[i] == r[i - 1];
        if AllAllowed(s) {
          assert AllAllowed(s[1..]);
          assert s == [s[0]] + s[1..];
        }
      } else {
        assert [] + r == r;
      }
    }
  }
  /**
   * The substitution works piecewise, keeping order: a text's result is the
   * results of its parts, one after the other.
   */
  lemma {:induction false} RemoveDisallowedAppend(a: string, b: string)
    ensures RemoveDisallowed(a + b) == RemoveDisallowed(a) + RemoveDisallowed(b)
  {
    if a == [] {
      assert a + b == b;
    } else {
      var h := if Allowed(a[0]) then [a[0]] else [];
      calc {
        RemoveDisallowed(a + b);
        { assert (a + b)[0] == a[0] && (a + b)[1..] == a[1..] + b; }
        h + RemoveDisallowed(a[1..] + b);
        { RemoveDisallowedAppend(a[1..], b); }
        h + (RemoveDisallowed(a[1..]) + RemoveDisallowed(b));
        (h + RemoveDisallowed(a[1..])) + RemoveDisallowed(b);
        RemoveDisallowed(a) + RemoveDisallowed(b);
      }
    }
  }

  /** A single character survives the substitution exactly when it is allowed. */
  lemma RemoveDisallowedChar(c: char)
    ensures RemoveDisallowed([c]) == (if Allowed(c) then [c] else [])
  {
    assert [c][1..] == [];
  }



  /** `lstrip()`: the suffix left after the leading whitespace. */
  function DropLeadingSpace(s: string): (r: string)
    ensures |r| <= |s|
  {
    if s != [] && IsSpace(s[0]) then DropLeadingSpace(s[1..]) else s
  }

  /** `lstrip()` removes exactly the leading whitespace run. */
  lemma {:induction false} DropLeadingSpaceSpec(s: string)
    ensures DropLeadingSpace(s) == s[|s| - |DropLeadingSpace(s)|..]
    ensures DropLeadingSpace(s) == [] || !IsSpace(DropLeadingSpace(s)[0])
    ensures forall i :: 0 <= i < |s| - |DropLeadingSpace(s)| ==> IsSpace(s[i])
  {
    if s != [] && IsSpace(s[0]) {
      DropLeadingSpaceSpec(s[1..]);
    }
  }

  /** `rstrip()`: the prefix left before the trailing whitespace. */
  function DropTrailingSpace(s: string): (r: string)
    ensures |r| <= |s|
  {
    if s != [] && IsSpace(s[|s| - 1]) then DropTrailingSpace(s[..|s| - 1]) else s
  }

  /** `rstrip()` removes exactly the trailing whitespace run. */
  lemma {:induction false} DropTrailingSpaceSpec(s: string)
    ensures DropTrailingSpace(s) == s[..|DropTrailingSpace(s)|]
    ensures DropTrailingSpace(s) == [] || !IsSpace(DropTrailingSpace(s)[|DropTrailingSpace(s)| - 1])
    ensures forall i :: |DropTrailingSpace(s)| <= i < |s| ==> IsSpace(s[i])
  {
    if s != [] && IsSpace(s[|s| - 1]) {
      DropTrailingSpaceSpec(s[..|s| - 1]);
    }
  }

  /** `str.strip()`. */
  function Strip(s: string): string {
    DropTrailingSpace(DropLeadingSpace(s))
  }

  /** `re.sub(r'\s+', ' ', s)`: every maximal whitespace run becomes one space. */
  function Collapse(s: string): string
    decreases |s|
  {
    if s == [] then []
    else if IsSpace(s[0]) then [' '] + Collapse(DropLeadingSpace(s[1..]))
    else [s[0]] + Collapse(s[1..])
  }

  /** `clean_text(text)` (ml/prepare_data.py:4-7). */
  function CleanText(text: string): string {
    Strip(Collapse(RemoveDisallowed(text)))
  }

  // ---------------------------------------------------------------------------
  // The words of a text: an independent description of what clean_text yields
  // ---------------------------------------------------------------------------

  /** The longest prefix of `s` without whitespace. */
  function TakeWord(s: string): (w: string)
    ensures |w| <= |s|
    ensures s != [] && !IsSpace(s[0]) ==> |w| > 0
  {
    if s == [] || IsSpace(s[0]) then [] else [s[0]] + TakeWord(s[1..])
  }

  /** The word is a whitespace-free prefix that stops at whitespace or at the end. */
  lemma {:induction false} TakeWordSpec(s: string)
    ensures TakeWord(s) == s[..|TakeWord(s)|] && NoSpace(TakeWord(s))
    ensures |TakeWord(s)| < |s| ==> IsSpace(s[|TakeWord(s)|])
  {
    if s != [] && !IsSpace(s[0]) {
      TakeWordSpec(s[1..]);
    }
  }

  /** The maximal whitespace-free runs of `s`, in order (Python's `s.split()`). */
  function Words(s: string): (ws: seq<string>)
    decreases |s|
  {
    if s == [] then []
    else if IsSpace(s[0]) then Words(s[1..])
    else
      var w := TakeWord(s);
      [w] + Words(s[|w|..])
  }

  /** `' '.join(ws)`. */
  function JoinWords(ws: seq<string>): string {
    if ws == [] then ""
    else if |ws| == 1 then ws[0]
    else ws[0] + " " + JoinWords(ws[1..])
  }

  predicate WellFormedWords(ws: seq<string>) {
    forall k :: 0 <= k < |ws| ==> |ws[k]| > 0 && NoSpace(ws[k])
  }

  // ---------------------------------------------------------------------------
  // Lemmas about clean_text
  // ---------------------------------------------------------------------------

  lemma {:induction false} WordsWellFormed(s: string)
    ensures WellFormedWords(Words(s))
    decreases |s|
  {
    if s == [] {
    } else if IsSpace(s[0]) {
      WordsWellFormed(s[1..]);
    } else {
      TakeWordSpec(s);
      WordsWellFormed(s[|TakeWord(s)|..]);
    }
  }

  /** Leading whitespace does not change the words. */
  lemma {:induction false} WordsSkipSpace(s: string)
    ensures Words(DropLeadingSpace(s)) == Words(s)
    decreases |s|
  {
    if s != [] && IsSpace(s[0]) {
      WordsSkipSpace(s[1..]);
    }
  }

  /** A text that starts with a word collapses to that word followed by the collapse of the rest. */
  lemma {:induction false} CollapseWord(s: string)
    requires s != [] && !IsSpace(s[0])
    ensures Collapse(s) == TakeWord(s) + Collapse(s[|TakeWord(s)|..])
    decreases |s|
  {
    var t := s[1..];
    assert Collapse(s) == [s[0]] + Collapse(t);
    assert TakeWord(s) == [s[0]] + TakeWord(t);
    if t != [] && !IsSpace(t[0]) {
      var w := TakeWord(t);
      CollapseWord(t);
      assert s[1 + |w|..] == t[|w|..];
      assert [s[0]] + (w + Collapse(t[|w|..])) == ([s[0]] + w) + Collapse(t[|w|..]);
    } else {
      assert TakeWord(t) == [];
    }
  }

  /** Trailing whitespace of `b` is all that `rstrip` removes from `a + b` when `b` has a non-space. */
  lemma {:induction false} DropTrailingAppend(a: string, b: string, k: nat)
    requires k < |b| && !IsSpace(b[k])
    ensures DropTrailingSpace(a + b) == a + DropTrailingSpace(b)
    decreases |b|
  {
    if IsSpace(b[|b| - 1]) {
      assert (a + b)[..|a + b| - 1] == a + b[..|b| - 1];
      DropTrailingAppend(a, b[..|b| - 1], k);
    }
  }

  lemma ConcatAssoc(a: string, b: string, c: string)
    ensures a + (b + c) == (a + b) + c
  {
  }

  lemma ConcatAssocSeq(a: seq<string>, b: seq<string>, c: seq<string>)
    ensures a + (b + c) == (a + b) + c
  {
  }

  lemma DropTrailingOfWord(w: string)
    requires NoSpace(w)
    ensures DropTrailingSpace(w) == w
  {
  }

  /** For a text that is empty or starts with a word, rstrip of its collapse joins its words. */
  lemma {:induction false} CollapseJoinsWords(s: string)
    requires s == [] || !IsSpace(s[0])
    ensures DropTrailingSpace(Collapse(s)) == JoinWords(Words(s))
    ensures s != [] ==> Collapse(s) != [] && !IsSpace(Collapse(s)[0]) && Words(s) != []
    decreases |s|
  {
    if s != [] {
      var w := TakeWord(s);
      var rest := s[|w|..];
      CollapseWord(s);
      assert Collapse(s) == w + Collapse(rest);
      assert Words(s) == [w] + Words(rest);
      TakeWordSpec(s);
      assert w[0] == s[0];
      if rest == [] {
        assert Collapse(rest) == [];
        assert Collapse(s) == w;
        assert Words(s) == [w];
        DropTrailingOfWord(w);
      } else {
        assert IsSpace(rest[0]);
        var r' := DropLeadingSpace(rest[1..]);
        DropLeadingSpaceSpec(rest[1..]);
        assert Collapse(rest) == [' '] + Collapse(r');
        assert Words(rest) == Words(rest[1..]);
        WordsSkipSpace(rest[1..]);
        if r' == [] {
          assert Collapse(r') == [];
          assert Words(r') == [];
          assert Collapse(s) == w + [' '];
          assert (w + [' '])[..|w|] == w;
          assert Words(s) == [w];
          DropTrailingOfWord(w);
        } else {
          CollapseJoinsWords(r');
          var c := Collapse(r');
          ConcatAssoc(w, " ", c);
          assert Collapse(s) == (w + " ") + c;
          DropTrailingAppend(w + " ", c, 0);
          var ws := Words(r');
          assert Words(s) == [w] + ws;
          assert ([w] + ws)[1..] == ws;
          assert JoinWords([w] + ws) == w + " " + JoinWords(ws);
        }
      }
    }
  }

  /** Strip after collapse is exactly "the words joined by single spaces". */
  lemma {:induction false} StripCollapseIsJoinedWords(s: string)
    ensures Strip(Collapse(s)) == JoinWords(Words(s))
  {
    if s != [] && IsSpace(s[0]) {
      var r' := DropLeadingSpace(s[1..]);
      DropLeadingSpaceSpec(s[1..]);
      CollapseJoinsWords(r');
      assert DropLeadingSpace(Collapse(s)) == Collapse(r');
      WordsSkipSpace(s[1..]);
    } else {
      CollapseJoinsWords(s);
    }
  }

  /**
   * What clean_text yields: the maximal whitespace-free runs of the allowed
   * characters, in their original order, joined by single spaces.
   */
  lemma CleanTextIsJoinedWords(text: string)
    ensures CleanText(text) == JoinWords(Words(RemoveDisallowed(text)))
  {
    StripCollapseIsJoinedWords(RemoveDisallowed(text));
  }

  lemma {:induction false} JoinWordsNormalized(ws: seq<string>)
    requires WellFormedWords(ws)
    ensures Normalized(JoinWords(ws))
    ensures ws != [] ==> JoinWords(ws) != []
  {
    if |ws| > 1 {
      JoinWordsNormalized(ws[1..]);
      var w, rest := ws[0], JoinWords(ws[1..]);
      var t := w + " " + rest;
      assert forall i :: 0 <= i < |w| ==> t[i] == w[i];
      assert t[|w|] == ' ';
      assert forall i :: |w| < i < |t| ==> t[i] == rest[i - |w| - 1];
    }
  }

  lemma {:induction false} WordCharsAllowed(s: string)
    requires AllAllowed(s)
    ensures forall k, i :: 0 <= k < |Words(s)| && 0 <= i < |Words(s)[k]| ==> Allowed(Words(s)[k][i])
    decreases |s|
  {
    if s == [] {
    } else if IsSpace(s[0]) {
      WordCharsAllowed(s[1..]);
    } else {
      TakeWordSpec(s);
      WordCharsAllowed(s[|TakeWord(s)|..]);
    }
  }

  lemma {:induction false} JoinWordsAllowed(ws: seq<string>)
    requires forall k, i :: 0 <= k < |ws| && 0 <= i < |ws[k]| ==> Allowed(ws[k][i])
    ensures AllAllowed(JoinWords(ws))
  {
    if |ws| > 1 {
      JoinWordsAllowed(ws[1..]);
      var w, rest := ws[0], JoinWords(ws[1..]);
      var t := w + " " + rest;
      assert forall i :: 0 <= i < |w| ==> t[i] == w[i];
      assert forall i :: |w| < i < |t| ==> t[i] == rest[i - |w| - 1];
    } else if |ws| == 1 {
      assert forall i :: 0 <= i < |ws[0]| ==> Allowed(ws[0][i]);
    }
  }

  /**
   * clean_text keeps only `\w`, whitespace and `.,;:()[]{}`, and its output has
   * single spaces only, never at the ends (ml/prepare_data.py:5-6).
   */
  lemma CleanTextShape(text: string)
    ensures AllAllowed(CleanText(text))
    ensures Normalized(CleanText(text))
  {
    var f := RemoveDisallowed(text);
    RemoveDisallowedSpec(text);
    CleanTextIsJoinedWords(text);
    WordsWellFormed(f);
    JoinWordsNormalized(Words(f));
    WordCharsAllowed(f);
    JoinWordsAllowed(Words(f));
  }

  lemma {:induction false} TakeWordOfJoin(w: string, t: string)
    requires NoSpace(w)
    requires t == [] || IsSpace(t[0])
    ensures TakeWord(w + t) == w
    decreases |w|
  {
    if w != [] {
      assert (w + t)[1..] == w[1..] + t;
      TakeWordOfJoin(w[1..], t);
    }
  }

  /** Splitting a joined list of words gives the words back. */
  lemma {:induction false} WordsOfJoinWords(ws: seq<string>)
    requires WellFormedWords(ws)
    ensures Words(JoinWords(ws)) == ws
  {
    if ws == [] {
    } else if |ws| == 1 {
      TakeWordOfJoin(ws[0], []);
      assert ws[0] + [] == ws[0];
      assert ws[0][|ws[0]|..] == [];
    } else {
      var w, rest := ws[0], JoinWords(ws[1..]);
      WordsOfJoinWords(ws[1..]);
      JoinWordsNormalized(ws[1..]);
      TakeWordOfJoin(w, " " + rest);
      assert w + " " + rest == w + (" " + rest);
      assert (w + (" " + rest))[|w|..] == " " + rest;
      assert (" " + rest)[1..] == rest;
    }
  }

  /** Cleaning twice is cleaning once. */
  lemma CleanTextIdempotent(text: string)
    ensures CleanText(CleanText(text)) == CleanText(text)
  {
    var t := CleanText(text);
    var ws := Words(RemoveDisallowed(text));
    CleanTextShape(text);
    RemoveDisallowedSpec(t);
    CleanTextIsJoinedWords(text);
    CleanTextIsJoinedWords(t);
    WordsWellFormed(RemoveDisallowed(text));
    WordsOfJoinWords(ws);
  }

  // ---------------------------------------------------------------------------
  // split_into_paragraphs
  // ---------------------------------------------------------------------------

  /** A match of `\n\s*\n` spans `s[i..k+1]`. */
  predicate SepAt(s: string, i: nat, k: nat) {
    i < k < |s| && s[i] == '\n' && s[k] == '\n' && forall m :: i < m < k ==> IsSpace(s[m])
  }

  /** The end of the whitespace run that starts at `j`. */
  function RunEnd(s: string, j: nat): (e: nat)
    requires j <= |s|
    ensures j <= e <= |s|
    decreases |s| - j
  {
    if j < |s| && IsSpace(s[j]) then RunEnd(s, j + 1) else j
  }

  lemma {:induction false} RunEndSpec(s: string, j: nat)
    requires j <= |s|
    ensures RunEnd(s, j) < |s| ==> !IsSpace(s[RunEnd(s, j)])
    ensures forall m :: j <= m < RunEnd(s, j) ==> IsSpace(s[m])
    decreases |s| - j
  {
    if j < |s| && IsSpace(s[j]) {
      RunEndSpec(s, j + 1);
    }
  }

  /** The last newline in `s[lo..hi]`, if any. */
  function LastNewline(s: string, lo: nat, hi: nat): (r: Option<nat>)
    requires lo <= hi <= |s|
    ensures r.Some? ==> lo <= r.value < hi
    decreases hi - lo
  {
    if lo == hi then None
    else if s[hi - 1] == '\n' then Some(hi - 1)
    else LastNewline(s, lo, hi - 1)
  }

  lemma {:induction false} LastNewlineSpec(s: string, lo: nat, hi: nat)
    requires lo <= hi <= |s|
    ensures LastNewline(s, lo, hi).Some? ==> s[LastNewline(s, lo, hi).value] == '\n'
    ensures LastNewline(s, lo, hi).Some? ==> forall m :: LastNewline(s, lo, hi).value < m < hi ==> s[m] != '\n'
    ensures LastNewline(s, lo, hi).None? ==> forall m :: lo <= m < hi ==> s[m] != '\n'
    decreases hi - lo
  {
    if lo < hi && s[hi - 1] != '\n' {
      LastNewlineSpec(s, lo, hi - 1);
    }
  }

  /**
   * Where the greedy match of `\n\s*\n` that starts at `i` ends: `\s*` takes the
   * whole whitespace run and gives back characters until a newline follows it.
   */
  function MatchAt(s: string, i: nat): (r: Option<nat>)
    requires i < |s|
    ensures r.Some? ==> i < r.value < |s|
  {
    if s[i] == '\n' then LastNewline(s, i + 1, RunEnd(s, i + 1)) else None
  }

  /** What the greedy match finds is a separator. */
  lemma MatchAtSound(s: string, i: nat)
    requires i < |s| && MatchAt(s, i).Some?
    ensures SepAt(s, i, MatchAt(s, i).value)
  {
    RunEndSpec(s, i + 1);
    LastNewlineSpec(s, i + 1, RunEnd(s, i + 1));
  }

  /** A separator at `i` is found by the greedy match, which ends at it or later. */
  lemma MatchAtComplete(s: string, i: nat, k: nat)
    requires SepAt(s, i, k)
    ensures MatchAt(s, i).Some? && k <= MatchAt(s, i).value
  {
    var e := RunEnd(s, i + 1);
    RunEndSpec(s, i + 1);
    LastNewlineSpec(s, i + 1, e);
    assert IsSpace(s[k]);
    assert k < e;
  }

  /** The leftmost match at or after `from` (`re.search` semantics). */
  function FindSep(s: string, from: nat): (r: Option<(nat, nat)>)
    requires from <= |s|
    ensures r.Some? ==> from <= r.value.0 < r.value.1 < |s|
    decreases |s| - from
  {
    if from == |s| then None
    else match MatchAt(s, from)
      case Some(k) => Some((from, k))
      case None => FindSep(s, from + 1)
  }

  lemma {:induction false} FindSepSpec(s: string, from: nat)
    requires from <= |s|
    ensures FindSep(s, from).Some? ==> MatchAt(s, FindSep(s, from).value.0) == Some(FindSep(s, from).value.1)
    ensures FindSep(s, from).Some? ==> forall i :: from <= i < FindSep(s, from).value.0 ==> MatchAt(s, i).None?
    ensures FindSep(s, from).None? ==> forall i :: from <= i < |s| ==> MatchAt(s, i).None?
    decreases |s| - from
  {
    if from < |s| && MatchAt(s, from).None? {
      FindSepSpec(s, from + 1);
    }
  }

  /** The pieces of `re.split(r'\n\s*\n', s)`. */
  function Pieces(s: string): (ps: seq<string>)
    ensures |ps| >= 1
    decreases |s|
  {
    match FindSep(s, 0)
    case None => [s]
    case Some((i, k)) => [s[..i]] + Pieces(s[k + 1..])
  }

  /** The matched separators, in order, one fewer than the pieces. */
  function Separators(s: string): (seps: seq<string>)
    ensures |seps| == |Pieces(s)| - 1
    decreases |s|
  {
    match FindSep(s, 0)
    case None => []
    case Some((i, k)) => [s[i..k + 1]] + Separators(s[k + 1..])
  }

  /** Putting the pieces back together with the separators between them. */
  function Interleave(ps: seq<string>, seps: seq<string>): string
    requires |ps| == |seps| + 1
  {
    if seps == [] then ps[0] else ps[0] + seps[0] + Interleave(ps[1..], seps[1..])
  }

  predicate IsSeparator(t: string) {
    |t| >= 2 && SepAt(t, 0, |t| - 1)
  }

  predicate HasSep(t: string) {
    exists i: nat, k: nat | i < k < |t| :: SepAt(t, i, k)
  }

  /**
   * re.split cuts the text exactly at separators `\n\s*\n`: the pieces and the
   * separators interleave back to the text.
   */
  lemma {:induction false} PiecesReassemble(s: string)
    ensures Interleave(Pieces(s), Separators(s)) == s
    decreases |s|
  {
    var f := FindSep(s, 0);
    if f.Some? {
      var i, k := f.value.0, f.value.1;
      var rest := s[k + 1..];
      var head, sep := s[..i], s[i..k + 1];
      SplitStep(s, i, k);
      PiecesReassemble(rest);
      InterleaveCons(head, sep, Pieces(rest), Separators(rest));
      calc {
        Interleave(Pieces(s), Separators(s));
        Interleave([head] + Pieces(rest), [sep] + Separators(rest));
        head + sep + Interleave(Pieces(rest), Separators(rest));
        head + sep + rest;
        { SliceConcat(s, i, k + 1); }
        s;
      }
    }
  }

  /** One step of the split: the first piece, the first separator, and the split of the rest. */
  lemma SplitStep(s: string, i: nat, k: nat)
    requires FindSep(s, 0) == Some((i, k))
    ensures Pieces(s) == [s[..i]] + Pieces(s[k + 1..])
    ensures Separators(s) == [s[i..k + 1]] + Separators(s[k + 1..])
  {
  }

  lemma SliceConcat(s: string, i: nat, j: nat)
    requires i <= j <= |s|
    ensures s[..i] + s[i..j] + s[j..] == s
  {
  }

  lemma InterleaveCons(p: string, sep: string, ps: seq<string>, seps: seq<string>)
    requires |ps| == |seps| + 1
    ensures Interleave([p] + ps, [sep] + seps) == p + sep + Interleave(ps, seps)
  {
    assert ([p] + ps)[1..] == ps && ([sep] + seps)[1..] == seps;
  }

  /** Every separator the split removes is a match of `\n\s*\n`. */
  lemma {:induction false} SeparatorsMatch(s: string)
    ensures forall j :: 0 <= j < |Separators(s)| ==> IsSeparator(Separators(s)[j])
    decreases |s|
  {
    var f := FindSep(s, 0);
    if f.Some? {
      var i, k := f.value.0, f.value.1;
      var rest := s[k + 1..];
      SplitStep(s, i, k);
      SeparatorsMatch(rest);
      FoundSeparator(s, i, k);
      ConsAll(s[i..k + 1], Separators(rest));
    }
  }

  /** The text the leftmost match spans is a separator. */
  lemma FoundSeparator(s: string, i: nat, k: nat)
    requires FindSep(s, 0) == Some((i, k))
    ensures IsSeparator(s[i..k + 1])
  {
    var sep := s[i..k + 1];
    FindSepSpec(s, 0);
    MatchAtSound(s, i);
    assert forall m :: 0 <= m < |sep| ==> sep[m] == s[i + m];
  }

  lemma ConsAll(sep: string, seps: seq<string>)
    requires IsSeparator(sep)
    requires forall j :: 0 <= j < |seps| ==> IsSeparator(seps[j])
    ensures forall j :: 0 <= j < |[sep] + seps| ==> IsSeparator(([sep] + seps)[j])
  {
  }

  /** The split is leftmost: no piece contains a separator. */
  lemma {:induction false} PiecesHaveNoSeparator(s: string)
    ensures forall j :: 0 <= j < |Pieces(s)| ==> !HasSep(Pieces(s)[j])
    decreases |s|
  {
    var f := FindSep(s, 0);
    FindSepSpec(s, 0);
    if f.None? {
      NoMatchNoSep(s, |s|);
      assert s[..|s|] == s;
      assert Pieces(s) == [s];
    } else {
      var i, k := f.value.0, f.value.1;
      var rest := s[k + 1..];
      var ps := Pieces(s);
      assert ps == [s[..i]] + Pieces(rest);
      PiecesHaveNoSeparator(rest);
      NoMatchNoSep(s, i);
      forall j | 0 <= j < |ps|
        ensures !HasSep(ps[j])
      {
        if j > 0 {
          assert ps[j] == Pieces(rest)[j - 1];
        }
      }
    }
  }

  /** A text without a match before `i` has no separator inside `s[..i]`. */
  lemma NoMatchNoSep(s: string, i: nat)
    requires i <= |s|
    requires forall j :: 0 <= j < i ==> MatchAt(s, j).None?
    ensures !HasSep(s[..i])
  {
    if HasSep(s[..i]) {
      var a: nat, b: nat :| a < b < i && SepAt(s[..i], a, b);
      assert forall m :: 0 <= m < i ==> s[..i][m] == s[m];
      assert SepAt(s, a, b);
      MatchAtComplete(s, a, b);
      assert false;
    }
  }

  /** `p.strip()` is truthy. */
  predicate NotBlank(p: string) {
    Strip(p) != ""
  }

  /** A piece is kept exactly when it has a character that is not whitespace. */
  lemma NotBlankIffHasNonSpace(p: string)
    ensures NotBlank(p) <==> exists m :: 0 <= m < |p| && !IsSpace(p[m])
  {
    var l := DropLeadingSpace(p);
    var d := |p| - |l|;
    DropLeadingSpaceSpec(p);
    DropTrailingSpaceSpec(l);
    assert forall m :: 0 <= m < |l| ==> l[m] == p[d + m];
    if m :| 0 <= m < |p| && !IsSpace(p[m]) {
      assert !IsSpace(l[m - d]);
    }
    if Strip(p) != "" {
      var t := Strip(p);
      assert t[|t| - 1] == l[|t| - 1] == p[d + |t| - 1];
    }
  }

  /** `[clean_text(p) for p in ps if p.strip()]`. */
  function CleanNonBlank(ps: seq<string>): (r: seq<string>)
    ensures |r| <= |ps|
  {
    if ps == [] then []
    else (if NotBlank(ps[0]) then [CleanText(ps[0])] else []) + CleanNonBlank(ps[1..])
  }

  /** `split_into_paragraphs(text)` (ml/prepare_data.py:9-11). */
  function SplitIntoParagraphs(text: string): seq<string> {
    CleanNonBlank(Pieces(text))
  }

  lemma {:induction false} CleanNonBlankNormalized(ps: seq<string>)
    ensures forall j :: 0 <= j < |CleanNonBlank(ps)| ==> Normalized(CleanNonBlank(ps)[j])
  {
    if ps != [] {
      CleanNonBlankNormalized(ps[1..]);
      CleanTextShape(ps[0]);
    }
  }

  /** Every paragraph is a cleaned text, and there is at most one per piece. */
  lemma ParagraphsAreClean(text: string)
    ensures |SplitIntoParagraphs(text)| <= |Pieces(text)|
    ensures forall j :: 0 <= j < |SplitIntoParagraphs(text)| ==>
      Normalized(SplitIntoParagraphs(text)[j]) && AllAllowed(SplitIntoParagraphs(text)[j])
  {
    CleanNonBlankNormalized(Pieces(text));
    ParagraphsAllowed(Pieces(text));
  }

  lemma {:induction false} ParagraphsAllowed(ps: seq<string>)
    ensures forall j :: 0 <= j < |CleanNonBlank(ps)| ==> AllAllowed(CleanNonBlank(ps)[j])
  {
    if ps != [] {
      ParagraphsAllowed(ps[1..]);
      CleanTextShape(ps[0]);
    }
  }

  /** Paragraph selection distributes over concatenation of pieces: order is kept. */
  lemma {:induction false} CleanNonBlankAppend(a: seq<string>, b: seq<string>)
    ensures CleanNonBlank(a + b) == CleanNonBlank(a) + CleanNonBlank(b)
  {
    if a == [] {
      assert a + b == b;
    } else {
      var h := if NotBlank(a[0]) then [CleanText(a[0])] else [];
      assert (a + b)[0] == a[0];
      assert (a + b)[1..] == a[1..] + b;
      assert CleanNonBlank(a + b) == h + CleanNonBlank(a[1..] + b);
      assert CleanNonBlank(a) == h + CleanNonBlank(a[1..]);
      CleanNonBlankAppend(a[1..], b);
      ConcatAssocSeq(h, CleanNonBlank(a[1..]), CleanNonBlank(b));
    }
  }

  /** A piece that is not blank may still clean to the empty paragraph. */
  lemma KeptPieceMayCleanToEmpty()
    ensures SplitIntoParagraphs("#") == [""]
  {
    var s := "#";
    assert MatchAt(s, 0).None?;
    assert FindSep(s, 0) == None;
    assert Strip(s) == s;
    assert RemoveDisallowed(s) == [];
  }

  // ---------------------------------------------------------------------------
  // The per-line parse of prepare_data
  // ---------------------------------------------------------------------------

  function IndexOfComma(s: string): (r: Option<nat>)
    ensures r.Some? ==> r.value < |s|
  {
    if s == [] then None
    else if s[0] == ',' then Some(0)
    else match IndexOfComma(s[1..])
      case Some(i) => Some(i + 1)
      case None => None
  }

  /** The first comma of the text, or none at all. */
  lemma {:induction false} IndexOfCommaSpec(s: string)
    ensures IndexOfComma(s).Some? ==>
      s[IndexOfComma(s).value] == ',' && forall m :: 0 <= m < IndexOfComma(s).value ==> s[m] != ','
    ensures IndexOfComma(s).None? ==> forall m :: 0 <= m < |s| ==> s[m] != ','
  {
    if s != [] && s[0] != ',' {
      IndexOfCommaSpec(s[1..]);
      if IndexOfComma(s[1..]).Some? {
        var i := IndexOfComma(s[1..]).value;
        assert forall m :: 1 <= m <= i ==> s[m] == s[1..][m - 1];
      } else {
        assert forall m :: 1 <= m < |s| ==> s[m] == s[1..][m - 1];
      }
    }
  }

  /** `s.split(',', maxsplit)`. */
  function SplitComma(s: string, maxsplit: nat): (parts: seq<string>)
    ensures 1 <= |parts| <= maxsplit + 1
    decreases maxsplit
  {
    if maxsplit == 0 then [s]
    else match IndexOfComma(s)
      case None => [s]
      case Some(i) => [s[..i]] + SplitComma(s[i + 1..], maxsplit - 1)
  }

  function JoinComma(parts: seq<string>): string
    requires |parts| >= 1
  {
    if |parts| == 1 then parts[0] else parts[0] + "," + JoinComma(parts[1..])
  }

  function CommaCount(s: string): nat {
    if s == [] then 0 else (if s[0] == ',' then 1 else 0) + CommaCount(s[1..])
  }

  lemma {:induction false} CommaCountAppend(a: string, b: string)
    ensures CommaCount(a + b) == CommaCount(a) + CommaCount(b)
  {
    if a == [] {
      assert a + b == b;
    } else {
      assert (a + b)[1..] == a[1..] + b;
      CommaCountAppend(a[1..], b);
    }
  }

  lemma {:induction false} CommaCountNone(s: string)
    requires forall m :: 0 <= m < |s| ==> s[m] != ','
    ensures CommaCount(s) == 0
  {
    if s != [] {
      CommaCountNone(s[1..]);
    }
  }

  /**
   * `split(',', n)` cuts at the first `n` commas only: joining the parts with
   * commas gives the text back, every part but the last is comma-free, and there
   * are `n + 1` parts exactly when the text has at least `n` commas.
   */
  lemma {:induction false} SplitCommaSpec(s: string, n: nat)
    ensures JoinComma(SplitComma(s, n)) == s
    ensures forall j :: 0 <= j < |SplitComma(s, n)| - 1 ==> CommaCount(SplitComma(s, n)[j]) == 0
    ensures |SplitComma(s, n)| == n + 1 <==> CommaCount(s) >= n
    decreases n
  {
    IndexOfCommaSpec(s);
    if n > 0 && IndexOfComma(s).None? {
      CommaCountNone(s);
    } else if n > 0 {
      var i := IndexOfComma(s).value;
      var rest := s[i + 1..];
      var parts, tail := SplitComma(s, n), SplitComma(rest, n - 1);
      assert parts == [s[..i]] + tail;
      SplitCommaSpec(rest, n - 1);
      FirstCommaCut(s, i);
      assert JoinComma(parts) == s[..i] + "," + JoinComma(tail);
      forall j | 0 <= j < |parts| - 1
        ensures CommaCount(parts[j]) == 0
      {
        if j > 0 {
          assert parts[j] == tail[j - 1];
        }
      }
    }
  }

  /** Cutting at the first comma: the part before it has no comma, the rest has one fewer. */
  lemma FirstCommaCut(s: string, i: nat)
    requires i < |s| && s[i] == ','
    requires forall m :: 0 <= m < i ==> s[m] != ','
    ensures s[..i] + "," + s[i + 1..] == s
    ensures CommaCount(s[..i]) == 0
    ensures CommaCount(s) == CommaCount(s[i + 1..]) + 1
  {
    var rest := s[i + 1..];
    assert s == s[..i] + "," + rest;
    CommaCountNone(s[..i]);
    CommaCountAppend(s[..i] + ",", rest);
    CommaCountAppend(s[..i], ",");
  }

  /** `s.strip('"')`: quote characters removed from both ends. */
  function StripQuotes(s: string): (r: string)
    ensures |r| <= |s|
    ensures r != [] ==> r[0] != '"' && r[|r| - 1] != '"'
    decreases |s|
  {
    if s != [] && s[0] == '"' then StripQuotes(s[1..])
    else if s != [] && s[|s| - 1] == '"' then StripQuotes(s[..|s| - 1])
    else s
  }

  /** `s[i..j]` is `s` with only quote characters cut from either end. */
  predicate QuoteTrim(s: string, i: int, j: int) {
    && 0 <= i <= j <= |s|
    && (forall m :: 0 <= m < i ==> s[m] == '"')
    && (forall m :: j <= m < |s| ==> s[m] == '"')
  }

  /**
   * `strip('"')` removes quotes at the ends and nothing else: the result is a
   * slice of `s` cut only through quote characters (and, by the function's
   * own contract, it is the widest such cut).
   */
  lemma {:induction false} StripQuotesSpec(s: string)
    ensures exists i, j :: QuoteTrim(s, i, j) && StripQuotes(s) == s[i..j]
    decreases |s|
  {
    if s != [] && s[0] == '"' {
      StripQuotesSpec(s[1..]);
      var i, j :| QuoteTrim(s[1..], i, j) && StripQuotes(s[1..]) == s[1..][i..j];
      QuoteTrimTail(s, i, j);
    } else if s != [] && s[|s| - 1] == '"' {
      StripQuotesSpec(s[..|s| - 1]);
      var i, j :| QuoteTrim(s[..|s| - 1], i, j) && StripQuotes(s[..|s| - 1]) == s[..|s| - 1][i..j];
      QuoteTrimInit(s, i, j);
    } else {
      assert s[0..|s|] == s;
      assert QuoteTrim(s, 0, |s|);
    }
  }

  /** A cut of `s[1..]` is a cut of `s` when `s` starts with a quote. */
  lemma QuoteTrimTail(s: string, i: int, j: int)
    requires s != [] && s[0] == '"' && QuoteTrim(s[1..], i, j)
    ensures QuoteTrim(s, i + 1, j + 1) && s[1..][i..j] == s[i + 1..j + 1]
  {
    forall m | 0 <= m < i + 1
      ensures s[m] == '"'
    {
      if m > 0 {
        assert s[m] == s[1..][m - 1];
      }
    }
    forall m | j + 1 <= m < |s|
      ensures s[m] == '"'
    {
      assert s[m] == s[1..][m - 1];
    }
  }

  /** A cut of all but the last character is a cut of `s` when `s` ends with a quote. */
  lemma QuoteTrimInit(s: string, i: int, j: int)
    requires s != [] && s[|s| - 1] == '"' && QuoteTrim(s[..|s| - 1], i, j)
    ensures QuoteTrim(s, i, j) && s[..|s| - 1][i..j] == s[i..j]
  {
    forall m | j <= m < |s|
      ensures s[m] == '"'
    {
      if m < |s| - 1 {
        assert s[m] == s[..|s| - 1][m];
      }
    }
  }

  /** One row of the verse file: `{'book', 'chapter', 'verse', 'text'}`. */
  datatype VerseRecord = VerseRecord(book: int, chapter: int, verse: int, text: string)

  /**
   * What one line of the verse file contributes: nothing (not four fields), a
   * record, or a `ValueError` from `int()` that aborts the whole run.
   */
  datatype LineOutcome = Skip | Record(record: VerseRecord) | Abort(field: string)

  /** The fields of a line: `line.strip().split(',', 3)`. */
  function Fields(line: string): (parts: seq<string>)
    ensures 1 <= |parts| <= 4
  {
    SplitComma(Strip(line), 3)
  }

  /** The loop body of `prepare_data` for one line (ml/prepare_data.py:17-25). */
  function ParseLine(line: string): LineOutcome {
    var parts := Fields(line);
    if |parts| != 4 then Skip
    else if ParseInt(parts[0]).None? then Abort(parts[0])
    else if ParseInt(parts[1]).None? then Abort(parts[1])
    else if ParseInt(parts[2]).None? then Abort(parts[2])
    else Record(VerseRecord(ParseInt(parts[0]).value, ParseInt(parts[1]).value, ParseInt(parts[2]).value,
                            CleanText(StripQuotes(parts[3]))))
  }

  /**
   * A line yields a record exactly when its stripped text has at least three
   * commas and its first three fields are integers; the record's numbers are
   * those fields and its text is the cleaned fourth field without its quotes.
   * A line with three commas and a non-integer field aborts the run.
   */
  lemma ParseLineSpec(line: string)
    ensures ParseLine(line).Skip? <==> CommaCount(Strip(line)) < 3
    ensures ParseLine(line).Record? <==>
      CommaCount(Strip(line)) >= 3 && forall j :: 0 <= j < 3 ==> ParseInt(Fields(line)[j]).Some?
    ensures ParseLine(line).Record? ==>
      var parts := Fields(line);
      ParseLine(line).record == VerseRecord(ParseInt(parts[0]).value, ParseInt(parts[1]).value,
                                            ParseInt(parts[2]).value, CleanText(StripQuotes(parts[3])))
  {
    SplitCommaSpec(Strip(line), 3);
  }

  /** The first comma of `a + "," + rest` is the one after `a` when `a` has none. */
  lemma {:induction false} IndexOfCommaAfter(a: string, rest: string)
    requires forall m :: 0 <= m < |a| ==> a[m] != ','
    ensures IndexOfComma(a + "," + rest) == Some(|a|)
  {
    if a != [] {
      assert (a + "," + rest)[1..] == a[1..] + "," + rest;
      IndexOfCommaAfter(a[1..], rest);
    }
  }

  lemma SplitCommaAfter(a: string, rest: string, n: nat)
    requires n > 0
    requires forall m :: 0 <= m < |a| ==> a[m] != ','
    ensures SplitComma(a + "," + rest, n) == [a] + SplitComma(rest, n - 1)
  {
    var s := a + "," + rest;
    IndexOfCommaAfter(a, rest);
    assert s[..|a|] == a && s[|a| + 1..] == rest;
  }

  lemma IntToStringNoComma(x: int)
    ensures forall m :: 0 <= m < |IntToString(x)| ==> IntToString(x)[m] != ','
    ensures !IsSpace(IntToString(x)[0])
  {
    if x < 0 {
      var d := NatToString(-x);
      assert forall m :: 1 <= m < |IntToString(x)| ==> IntToString(x)[m] == d[m - 1];
    }
  }

  /** The line that writes out a verse record. */
  function Row(book: int, chapter: int, verse: int, text: string): string {
    IntToString(book) + "," + IntToString(chapter) + "," + IntToString(verse) + "," + text
  }

  lemma StripOfRow(book: int, chapter: int, verse: int, text: string)
    requires text == [] || !IsSpace(text[|text| - 1])
    ensures Strip(Row(book, chapter, verse, text)) == Row(book, chapter, verse, text)
  {
    var line := Row(book, chapter, verse, text);
    IntToStringNoComma(book);
    assert line[0] == IntToString(book)[0];
    if text == [] {
      assert line[|line| - 1] == ',';
    } else {
      assert line[|line| - 1] == text[|text| - 1];
    }
  }

  lemma RowNested(b: string, c: string, v: string, t: string)
    ensures b + "," + c + "," + v + "," + t == b + "," + (c + "," + (v + "," + t))
  {
  }

  lemma {:induction false} FieldsOfRow(book: int, chapter: int, verse: int, text: string)
    requires text == [] || !IsSpace(text[|text| - 1])
    ensures Fields(Row(book, chapter, verse, text)) == [IntToString(book), IntToString(chapter), IntToString(verse), text]
  {
    StripOfRow(book, chapter, verse, text);
    IntToStringNoComma(book);
    IntToStringNoComma(chapter);
    IntToStringNoComma(verse);
    SplitRow(IntToString(book), IntToString(chapter), IntToString(verse), text);
  }

  /** Three comma-free fields and a text, joined by commas, split back apart. */
  lemma SplitRow(b: string, c: string, v: string, text: string)
    requires forall m :: 0 <= m < |b| ==> b[m] != ','
    requires forall m :: 0 <= m < |c| ==> c[m] != ','
    requires forall m :: 0 <= m < |v| ==> v[m] != ','
    ensures SplitComma(b + "," + c + "," + v + "," + text, 3) == [b, c, v, text]
  {
    calc {
      SplitComma(b + "," + c + "," + v + "," + text, 3);
      { RowNested(b, c, v, text); }
      SplitComma(b + "," + (c + "," + (v + "," + text)), 3);
      { SplitCommaAfter(b, c + "," + (v + "," + text), 3); }
      [b] + SplitComma(c + "," + (v + "," + text), 2);
      { SplitCommaAfter(c, v + "," + text, 2); }
      [b] + ([c] + SplitComma(v + "," + text, 1));
      { SplitCommaAfter(v, text, 1); }
      [b] + ([c] + ([v] + [text]));
      [b, c, v, text];
    }
  }

  /**
   * A row written as `book,chapter,verse,text` reads back as that record, whatever
   * commas the text holds; the text is unquoted and cleaned on the way.
   */
  lemma ParseLineOfRow(book: int, chapter: int, verse: int, text: string)
    requires text == [] || !IsSpace(text[|text| - 1])
    ensures ParseLine(Row(book, chapter, verse, text)) == Record(VerseRecord(book, chapter, verse, CleanText(StripQuotes(text))))
  {
    FieldsOfRow(book, chapter, verse, text);
    ParseIntOfIntToString(book);
    ParseIntOfIntToString(chapter);
    ParseIntOfIntToString(verse);
  }

  /** The outcome of every line of the file, in order. */
  function Outcomes(lines: seq<string>): (os: seq<LineOutcome>)
    ensures |os| == |lines| && forall i :: 0 <= i < |lines| ==> os[i] == ParseLine(lines[i])
  {
    seq(|lines|, i requires 0 <= i < |lines| => ParseLine(lines[i]))
  }

  /**
   * The `bible_verses` list built from the line outcomes, or the first
   * `ValueError` (defined from the last line back, as the loop appends).
   */
  function Collect(os: seq<LineOutcome>): Result<seq<VerseRecord>, string> {
    if os == [] then Ok([])
    else Step(Collect(os[..|os| - 1]), os[|os| - 1])
  }

  /** One iteration of the loop: append a record, skip, or raise. */
  function Step(acc: Result<seq<VerseRecord>, string>, o: LineOutcome): Result<seq<VerseRecord>, string> {
    if acc.Err? then acc
    else match o
      case Skip => acc
      case Record(r) => Ok(acc.value + [r])
      case Abort(f) => Err(f)
  }

  /** Results of two consecutive chunks: records concatenate, the first error wins. */
  function Combine(a: Result<seq<VerseRecord>, string>, b: Result<seq<VerseRecord>, string>): Result<seq<VerseRecord>, string> {
    if a.Err? then a else if b.Err? then b else Ok(a.value + b.value)
  }

  /** The records of a file are those of its first part followed by those of the rest. */
  lemma {:induction false} CollectAppend(a: seq<LineOutcome>, b: seq<LineOutcome>)
    ensures Collect(a + b) == Combine(Collect(a), Collect(b))
  {
    if b == [] {
      assert a + b == a;
      if Collect(a).Ok? {
        assert Collect(a).value + [] == Collect(a).value;
      }
    } else {
      var b' := b[..|b| - 1];
      CollectAppend(a, b');
      assert (a + b)[..|a + b| - 1] == a + b';
      assert (a + b)[|a + b| - 1] == b[|b| - 1];
      var ca, cb' := Collect(a), Collect(b');
      if ca.Ok? && cb'.Ok? && b[|b| - 1].Record? {
        assert ca.value + cb'.value + [b[|b| - 1].record] == ca.value + (cb'.value + [b[|b| - 1].record]);
      }
    }
  }

  /**
   * Records keep file line order: the records of `a + b` are the records of `a`
   * followed by those of `b`, and a `ValueError` in `a` wins over anything in `b`.
   */
  lemma RecordsInLineOrder(a: seq<string>, b: seq<string>)
    ensures Collect(Outcomes(a + b)) == Combine(Collect(Outcomes(a)), Collect(Outcomes(b)))
  {
    OutcomesAppend(a, b);
    CollectAppend(Outcomes(a), Outcomes(b));
  }

  lemma OutcomesAppend(a: seq<string>, b: seq<string>)
    ensures Outcomes(a + b) == Outcomes(a) + Outcomes(b)
  {
    var l, r := Outcomes(a + b), Outcomes(a) + Outcomes(b);
    assert |l| == |r|;
    forall i | 0 <= i < |l|
      ensures l[i] == r[i]
    {
      if i < |a| {
        assert (a + b)[i] == a[i];
      } else {
        assert (a + b)[i] == b[i - |a|];
      }
    }
  }

  /** A single line contributes its record, nothing, or its error. */
  lemma SingleLine(line: string)
    ensures Collect(Outcomes([line])) == match ParseLine(line)
      case Skip => Ok([])
      case Record(r) => Ok([r])
      case Abort(f) => Err(f)
  {
    var os := Outcomes([line]);
    assert os == [ParseLine(line)];
    assert os[..0] == [];
    if ParseLine(line).Record? {
      assert [] + [ParseLine(line).record] == [ParseLine(line).record];
    }
  }

  /** The `bible_verses` loop of `prepare_data` (ml/prepare_data.py:14-25). */
  method CollectVerses(lines: seq<string>) returns (r: Result<seq<VerseRecord>, string>)
    ensures r == Collect(Outcomes(lines))
  {
    ghost var os := Outcomes(lines);
    var verses: seq<VerseRecord> := [];
    var i := 0;
    while i < |lines|
      invariant 0 <= i <= |lines|
      invariant Collect(os[..i]) == Ok(verses)
    {
      assert os[..i + 1][..i] == os[..i];
      var o := ParseLine(lines[i]);
      if o.Abort? {
        AbortIsFinal(os, i + 1, o.field);
        return Err(o.field);
      } else if o.Record? {
        verses := verses + [o.record];
      }
      i := i + 1;
    }
    assert os[..i] == os;
    return Ok(verses);
  }

  /** Once a prefix of the file fails, the whole file fails the same way. */
  lemma AbortIsFinal(os: seq<LineOutcome>, i: nat, f: string)
    requires i <= |os| && Collect(os[..i]) == Err(f)
    ensures Collect(os) == Err(f)
  {
    CollectAppend(os[..i], os[i..]);
    assert os[..i] + os[i..] == os;
  }
}
