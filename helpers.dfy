/**
 * The helper functions of app.py: the upload extension check, the
 * whitespace normaliser, the period-based sentence splitter and the answer
 * highlighter.
 */
module Helpers {
  import opened Wrappers
  import opened Strings

  /** The extensions the application accepts (`ALLOWED_EXTENSIONS`). */
  const AllowedExtensions: set<string> := {"pdf", "txt", "docx"}

  /** Minimum length, exclusive, of a kept sentence. */
  const MinSentenceLength := 30

  // ---------------------------------------------------------------------
  // allowed_file

  /** `filename.rsplit(".", 1)[1]`: the text after the last '.', or None
      when the name has no '.' (where Python would raise IndexError). */
  function Extension(name: string): (r: Option<string>)
    ensures r.None? <==> '.' !in name
    ensures r.Some? ==>
      |r.value| < |name| && name[|name| - |r.value| - 1] == '.' &&
      r.value == name[|name| - |r.value|..] && '.' !in r.value
    decreases |name|
  {
    if name == [] then None
    else if name[|name| - 1] == '.' then Some([])
    else
      var front := name[..|name| - 1];
      assert name == front + [name[|name| - 1]];
      match Extension(front)
      case None => None
      case Some(e) => Some(e + [name[|name| - 1]])
  }

  /** `allowed_file`: the name has a '.' and the part after the last one,
      lowercased, is an accepted extension. */
  function AllowedFile(filename: string): bool
  {
    '.' in filename && Lower(Extension(filename).value) in AllowedExtensions
  }

  /** `name` is some text, a '.', and a suffix that lowercases to `ext`. */
  ghost predicate EndsWithExtension(name: string, ext: string)
  {
    |name| > |ext| && name[|name| - |ext| - 1] == '.' && Lower(name[|name| - |ext|..]) == ext
  }

  lemma {:induction false} ExtensionAfterLastDot(front: string, ext: string)
    requires '.' !in ext
    ensures Extension(front + "." + ext) == Some(ext)
    decreases |ext|
  {
    var name := front + "." + ext;
    if ext != [] {
      var last := ext[|ext| - 1];
      assert name[..|name| - 1] == front + "." + ext[..|ext| - 1];
      ExtensionAfterLastDot(front, ext[..|ext| - 1]);
      assert ext[..|ext| - 1] + [last] == ext;
    } else {
      assert name[|name| - 1] == '.';
    }
  }

  /** The accepted names are exactly those ending in ".pdf", ".txt" or
      ".docx", in any mix of upper and lower case. */
  lemma AllowedFileIff(filename: string)
    ensures AllowedFile(filename) <==>
      EndsWithExtension(filename, "pdf") ||
      EndsWithExtension(filename, "txt") ||
      EndsWithExtension(filename, "docx")
  {
    forall ext | ext in AllowedExtensions && EndsWithExtension(filename, ext)
      ensures AllowedFile(filename)
    {
      var cut := |filename| - |ext|;
      var suffix := filename[cut..];
      assert '.' !in suffix by {
        forall i | 0 <= i < |suffix| ensures suffix[i] != '.' {
          assert Lower(suffix)[i] == LowerChar(suffix[i]) == ext[i];
        }
      }
      assert filename == filename[..cut - 1] + "." + suffix;
      ExtensionAfterLastDot(filename[..cut - 1], suffix);
    }
    if AllowedFile(filename) {
      var e := Extension(filename).value;
      assert EndsWithExtension(filename, Lower(e));
    }
  }

  // ---------------------------------------------------------------------
  // clean_text

  /** `clean_text`: newlines become spaces, then the text is split on
      whitespace and rejoined with single spaces. */
  function CleanText(text: string): string
  {
    Join(Words(Replace(text, "\n", " ")), " ")
  }

  lemma CleanTextSameWords(text: string)
    ensures Words(Replace(text, "\n", " ")) == Words(text)
  {
    ReplaceSpaceKeepsShape(text, '\n', ' ');
    WordsSameShape(text, Replace(text, "\n", " "));
  }

  /** The cleaned text has no whitespace at either end and only single
      spaces between tokens; it is empty exactly for blank input. */
  lemma CleanTextSingleSpaced(text: string)
    ensures SingleSpaced(CleanText(text))
    ensures CleanText(text) == [] <==> IsBlank(text)
  {
    JoinSingleSpaced(Words(Replace(text, "\n", " ")));
    CleanTextSameWords(text);
    WordsEmptyIff(text);
  }

  /** Cleaning keeps the whitespace-separated tokens, in order, and the
      cleaned text split on " " is exactly those tokens. */
  lemma CleanTextKeepsTokens(text: string)
    ensures Words(CleanText(text)) == Words(text)
    ensures Words(text) != [] ==> Pieces(CleanText(text), " ") == Words(text)
  {
    var ws := Words(Replace(text, "\n", " "));
    CleanTextSameWords(text);
    WordsOfJoin(ws);
    if ws != [] {
      forall i | 0 <= i < |ws| ensures ' ' !in ws[i] {
        assert IsSpace(' ');
      }
      PiecesOfJoin(ws, ' ');
    }
  }

  /** Cleaning twice is cleaning once. */
  lemma CleanTextIdempotent(text: string)
    ensures CleanText(CleanText(text)) == CleanText(text)
  {
    CleanTextKeepsTokens(text);
    CleanTextSameWords(text);
    CleanTextSameWords(CleanText(text));
  }

  // ---------------------------------------------------------------------
  // split_into_sentences

  /** `[p.strip() for p in ps if len(p.strip()) > 30]`. */
  function LongStripped(ps: seq<string>): seq<string>
  {
    if ps == [] then []
    else
      var s := Strip(ps[0]);
      (if |s| > MinSentenceLength then [s] else []) + LongStripped(ps[1..])
  }

  /** Every kept piece is long and has no whitespace at either end, and a
      character no piece holds is in no kept piece either. */
  lemma {:induction false} LongStrippedShape(ps: seq<string>, d: char)
    requires forall i :: 0 <= i < |ps| ==> d !in ps[i]
    ensures forall i :: 0 <= i < |LongStripped(ps)| ==>
      var r := LongStripped(ps)[i];
      |r| > MinSentenceLength && !IsSpace(r[0]) && !IsSpace(r[|r| - 1]) && d !in r
  {
    if ps != [] {
      StripShape(ps[0]);
      LongStrippedShape(ps[1..], d);
    }
  }

  lemma {:induction false} LongStrippedAppend(xs: seq<string>, ys: seq<string>)
    ensures LongStripped(xs + ys) == LongStripped(xs) + LongStripped(ys)
  {
    if xs != [] {
      var s := Strip(xs[0]);
      var head := if |s| > MinSentenceLength then [s] else [];
      assert (xs + ys)[0] == xs[0];
      assert (xs + ys)[1..] == xs[1..] + ys;
      assert LongStripped(xs + ys) == head + LongStripped(xs[1..] + ys);
      LongStrippedAppend(xs[1..], ys);
      assert LongStripped(xs) == head + LongStripped(xs[1..]);
    } else {
      assert xs + ys == ys;
    }
  }

  /** `split_into_sentences`: the stripped pieces of `text.split(".")`
      longer than 30 characters. None holds a '.', none starts or ends with
      whitespace. */
  function SplitIntoSentences(text: string): (ss: seq<string>)
    ensures forall i :: 0 <= i < |ss| ==>
      |ss[i]| > MinSentenceLength && '.' !in ss[i] &&
      !IsSpace(ss[i][0]) && !IsSpace(ss[i][|ss[i]| - 1])
  {
    PiecesAvoidSeparator(text, '.');
    LongStrippedShape(Pieces(text, "."), '.');
    LongStripped(Pieces(text, "."))
  }

  /** The sentences of two texts joined by a period are the sentences of
      the first followed by those of the second. */
  lemma SentencesAtPeriod(a: string, b: string)
    ensures SplitIntoSentences(a + "." + b) == SplitIntoSentences(a) + SplitIntoSentences(b)
  {
    PiecesAtSeparator(a, b, '.');
    LongStrippedAppend(Pieces(a, "."), Pieces(b, "."));
  }

  /** A text without a period is one sentence, kept only when its stripped
      form is longer than 30 characters. */
  lemma SentencesOfFragment(a: string)
    requires '.' !in a
    ensures SplitIntoSentences(a) == if |Strip(a)| > MinSentenceLength then [Strip(a)] else []
  {
    PiecesWithoutSeparator(a, '.');
    assert Pieces(a, ".") == [a];
    assert [a][1..] == [];
    assert LongStripped([a]) == (if |Strip(a)| > MinSentenceLength then [Strip(a)] else []) + LongStripped([]);
  }

  // ---------------------------------------------------------------------
  // highlight_answer

  function Marked(answer: string): string
  {
    "<mark>" + answer + "</mark>"
  }

  /** `highlight_answer`, also written out inline by the request handler:
      `sentence.replace(answer, "<mark>" + answer + "</mark>")`. */
  function HighlightAnswer(sentence: string, answer: string): string
  {
    Replace(sentence, answer, Marked(answer))
  }

  /** Highlighting cuts the sentence at the occurrences of the answer found
      scanning left to right, and puts the marked answer where each
      occurrence was; everything between occurrences is kept as it was. */
  lemma HighlightWrapsOccurrences(sentence: string, answer: string)
    ensures Join(Pieces(sentence, answer), answer) == sentence
    ensures HighlightAnswer(sentence, answer) == Join(Pieces(sentence, answer), Marked(answer))
    ensures answer != [] ==> Leftmost(Pieces(sentence, answer), answer)
  {
    PiecesJoin(sentence, answer);
    ReplaceJoinsPieces(sentence, answer, Marked(answer));
    if answer != [] {
      PiecesLeftmost(sentence, answer);
    }
  }

  /** An answer that occurs in the sentence lengthens it. */
  lemma HighlightLengthensOnOccurrence(sentence: string, answer: string, k: nat)
    requires answer != [] && MatchAt(sentence, answer, k)
    ensures |HighlightAnswer(sentence, answer)| > |sentence|
  {
    var ps := Pieces(sentence, answer);
    MatchGivesTwoPieces(sentence, answer, k);
    PiecesJoin(sentence, answer);
    ReplaceJoinsPieces(sentence, answer, Marked(answer));
    JoinWithLongerSeparator(ps, answer, Marked(answer));
  }

  /** A non-empty answer changes the sentence exactly when it occurs in it. */
  lemma HighlightChangesIffOccurs(sentence: string, answer: string)
    requires answer != []
    ensures HighlightAnswer(sentence, answer) == sentence <==>
      forall k :: 0 <= k <= |sentence| ==> !MatchAt(sentence, answer, k)
  {
    if exists k :: 0 <= k <= |sentence| && MatchAt(sentence, answer, k) {
      var k :| 0 <= k <= |sentence| && MatchAt(sentence, answer, k);
      HighlightLengthensOnOccurrence(sentence, answer, k);
    } else {
      ReplaceWithoutMatch(sentence, answer, Marked(answer));
    }
  }
}
