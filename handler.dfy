/**
 * The request handler `home`: the form fields, the uploads and the outside
 * services it calls, the specification of its answer list (`Respond`), the
 * step-by-step handler (`Home`) proved against it, and the properties of
 * the answer list.
 */
module Handler {
  import opened Wrappers
  import opened Strings
  import opened Helpers
  import opened Ranking

  /** An uploaded file: the name the browser sent and the bytes. */
  datatype Upload = Upload(filename: string, content: seq<bv8>)

  /** The posted form; a field the browser did not send is `None`. */
  datatype Form = Form(question: Option<string>, textInput: Option<string>, files: seq<Upload>)

  datatype Request = Get | Post(form: Form)

  /** What the question-answering model returns for one sentence: the
      answer span and its score, in millionths. */
  datatype Prediction = Prediction(answer: string, score: int)

  /**
   * The code the handler calls but that is not part of this model: the
   * upload name sanitiser, the three text extractors (applied to the saved
   * bytes), the question-answering model, and `round(score, 2)` on scores
   * in millionths.
   */
  datatype Services = Services(
    secureFilename: string -> string,
    pdfText: seq<bv8> -> string,
    docxText: seq<bv8> -> string,
    txtText: seq<bv8> -> string,
    qa: (string, string) -> Prediction,
    round2: int -> int)

  /** The rendered page's answer list, or the error page of an uncaught
      exception. */
  datatype Response = Rendered(answers: seq<Answer>) | ServerError

  /** A sentence is kept when its score is above 0.2 (in millionths). */
  const Threshold := 200_000

  /** How many sentences are sent to the model at most. */
  const MaxSentences := 15

  const UploadedDocument := "Uploaded Document"
  const DirectTextInput := "Direct Text Input"
  const UnknownSource := "Unknown Source"

  const NoInputProvided := Answer("No document or text input provided.", 0, "-")
  const PleaseEnterQuestion := Answer("Please enter a question.", 0, "-")

  /** `request.form.get(key, "")`. */
  function FormValue(v: Option<string>): string
  {
    match v
    case None => ""
    case Some(s) => s
  }

  /** The stripped question. */
  function Question(form: Form): string
  {
    Strip(FormValue(form.question))
  }

  /** The stripped pasted text. */
  function Pasted(form: Form): string
  {
    Strip(FormValue(form.textInput))
  }

  /** The source label, by precedence: a named upload, then pasted text. */
  function InputSource(files: seq<Upload>, pasted: string): (source: string)
    ensures source in {UploadedDocument, DirectTextInput, UnknownSource}
    ensures source == UploadedDocument <==> exists i :: 0 <= i < |files| && files[i].filename != []
    ensures source == DirectTextInput <==>
      (forall i :: 0 <= i < |files| ==> files[i].filename == []) && pasted != []
    ensures source == UnknownSource <==>
      (forall i :: 0 <= i < |files| ==> files[i].filename == []) && pasted == []
  {
    if exists i :: 0 <= i < |files| && files[i].filename != [] then UploadedDocument
    else if pasted != [] then DirectTextInput
    else UnknownSource
  }

  /** An upload the handler saves and reads: a non-empty, accepted name. */
  predicate Accepted(f: Upload)
  {
    f.filename != [] && AllowedFile(f.filename)
  }

  /**
   * What one upload adds to the combined text: nothing when it is not
   * accepted or when its sanitised extension is none of the three, the
   * cleaned extracted text otherwise, and `None` when the sanitised name
   * has no '.' left (the extension lookup raises).
   */
  function FileText(f: Upload, env: Services): Option<string>
  {
    if Accepted(f) then
      match Extension(env.secureFilename(f.filename))
      case None => None
      case Some(e) =>
        var ext := Lower(e);
        if ext == "pdf" then Some(CleanText(env.pdfText(f.content)))
        else if ext == "docx" then Some(CleanText(env.docxText(f.content)))
        else if ext == "txt" then Some(CleanText(env.txtText(f.content)))
        else Some("")
    else Some("")
  }

  /** Two texts one after the other; `None` if either raised. */
  function Concat(a: Option<string>, b: Option<string>): Option<string>
  {
    if a.Some? && b.Some? then Some(a.value + b.value) else None
  }

  /** Texts one after the other; `None` once one raised. */
  function Joined(parts: seq<Option<string>>): Option<string>
  {
    if parts == [] then Some("")
    else Concat(Joined(parts[..|parts| - 1]), parts[|parts| - 1])
  }

  /** What each upload adds, in upload order. */
  function FileTexts(files: seq<Upload>, env: Services): (parts: seq<Option<string>>)
    ensures |parts| == |files|
    ensures forall i :: 0 <= i < |files| ==> parts[i] == FileText(files[i], env)
  {
    seq(|files|, i requires 0 <= i < |files| => FileText(files[i], env))
  }

  /** What the uploads add, in upload order; `None` once one raises. */
  function FilesText(files: seq<Upload>, env: Services): Option<string>
  {
    Joined(FileTexts(files, env))
  }

  /** The combined text: the uploads' texts, then the stripped pasted text. */
  function CombinedText(form: Form, env: Services): Option<string>
  {
    match FilesText(form.files, env)
    case None => None
    case Some(t) => Some(t + Pasted(form))
  }

  /** The sentences sent to the model: the first fifteen. */
  function Window(text: string): (w: seq<string>)
    ensures |w| <= MaxSentences && w <= SplitIntoSentences(text)
    ensures |w| == if |SplitIntoSentences(text)| <= MaxSentences then |SplitIntoSentences(text)| else MaxSentences
  {
    Take(SplitIntoSentences(text), MaxSentences)
  }

  /** The entry for a sentence: the sentence with the answer marked, the
      rounded score and the source label. */
  function Entry(sentence: string, p: Prediction, env: Services, source: string): Answer
  {
    Answer(HighlightAnswer(sentence, p.answer), env.round2(p.score), source)
  }

  predicate Passes(question: string, sentence: string, env: Services)
  {
    env.qa(question, sentence).score > Threshold
  }

  /** The entries of the sentences that pass, in sentence order. */
  function Candidates(question: string, ss: seq<string>, env: Services, source: string): (r: seq<Answer>)
    ensures |r| <= |ss|
    ensures forall i :: 0 <= i < |r| ==> r[i].source == source
  {
    if ss == [] then []
    else
      var init := Candidates(question, ss[..|ss| - 1], env, source);
      var s := ss[|ss| - 1];
      if Passes(question, s, env) then init + [Entry(s, env.qa(question, s), env, source)] else init
  }

  /** The combined text exists, is not blank, and the question is not
      blank: the branch that asks the model. */
  predicate Answering(form: Form, env: Services)
  {
    var text := CombinedText(form, env);
    text.Some? && Strip(text.value) != [] && Question(form) != []
  }

  /** The answer list `home` renders for a request. */
  function Respond(req: Request, env: Services): Response
  {
    match req
    case Get => Rendered([])
    case Post(form) =>
      match CombinedText(form, env)
      case None => ServerError
      case Some(text) =>
        if Strip(text) == [] then Rendered([NoInputProvided])
        else if Question(form) == [] then Rendered([PleaseEnterQuestion])
        else
          var source := InputSource(form.files, Pasted(form));
          Rendered(Rank(Candidates(Question(form), Window(text), env, source)))
  }

  // ---------------------------------------------------------------------
  // The handler, step by step

  /** The loop over the uploads: each accepted upload is sanitised, its
      extension looked up, and its cleaned text appended; `None` where the
      extension lookup raises. */
  method ReadUploads(files: seq<Upload>, env: Services) returns (text: Option<string>)
    ensures text == FilesText(files, env)
  {
    ghost var parts := FileTexts(files, env);
    var combined := "";
    for i := 0 to |files|
      invariant Joined(parts[..i]) == Some(combined)
    {
      var f := files[i];
      JoinedSnoc(parts, i);
      if f.filename != [] && AllowedFile(f.filename) {
        var filename := env.secureFilename(f.filename);
        if '.' !in filename {
          assert parts[i] == None;
          JoinedSomeIff(parts);
          return None;
        }
        var ext := Lower(Extension(filename).value);
        if ext == "pdf" {
          assert parts[i] == Some(CleanText(env.pdfText(f.content)));
          combined := combined + CleanText(env.pdfText(f.content));
        } else if ext == "docx" {
          assert parts[i] == Some(CleanText(env.docxText(f.content)));
          combined := combined + CleanText(env.docxText(f.content));
        } else if ext == "txt" {
          assert parts[i] == Some(CleanText(env.txtText(f.content)));
          combined := combined + CleanText(env.txtText(f.content));
        } else {
          assert parts[i] == Some("");
          assert combined + "" == combined;
        }
      } else {
        assert parts[i] == Some("");
        assert combined + "" == combined;
      }
    }
    assert parts[..|files|] == parts;
    return Some(combined);
  }

  /** The loop over the first fifteen sentences: the entry of each sentence
      whose score is above 0.2, in sentence order. */
  method ScoreSentences(question: string, window: seq<string>, env: Services, source: string)
    returns (answers: seq<Answer>)
    ensures answers == Candidates(question, window, env, source)
  {
    answers := [];
    for i := 0 to |window|
      invariant answers == Candidates(question, window[..i], env, source)
    {
      var sent := window[i];
      assert window[..i + 1][..i] == window[..i];
      var result := env.qa(question, sent);
      if result.score > Threshold {
        answers := answers + [Answer(HighlightAnswer(sent, result.answer), env.round2(result.score), source)];
      }
    }
    assert window[..|window|] == window;
  }

  /** `home`: builds the combined text, validates it, scores the first
      fifteen sentences, then sorts, cuts and falls back. */
  method Home(req: Request, env: Services) returns (resp: Response)
    ensures resp == Respond(req, env)
  {
    if req.Get? {
      return Rendered([]);
    }
    var form := req.form;
    var question := Strip(FormValue(form.question));
    var pasted := Strip(FormValue(form.textInput));
    var source := InputSource(form.files, pasted);

    var uploaded := ReadUploads(form.files, env);
    if uploaded.None? {
      return ServerError;
    }
    var combined := uploaded.value;
    if pasted != [] {
      combined := combined + pasted;
    } else {
      assert combined + pasted == combined;
    }

    if Strip(combined) == [] {
      return Rendered([NoInputProvided]);
    } else if question == [] {
      return Rendered([PleaseEnterQuestion]);
    }

    var sentences := SplitIntoSentences(combined);
    var answers := ScoreSentences(question, Take(sentences, MaxSentences), env, source);
    answers := SortByConfidence(answers);
    answers := Take(answers, TopN);
    if answers == [] {
      answers := [NoAnswerFound];
    }
    return Rendered(answers);
  }

  // ---------------------------------------------------------------------
  // The combined text

  lemma JoinedSnoc(parts: seq<Option<string>>, i: nat)
    requires i < |parts|
    ensures Joined(parts[..i + 1]) == Concat(Joined(parts[..i]), parts[i])
  {
    var front := parts[..i + 1];
    assert front[..i] == parts[..i] && front[i] == parts[i];
  }

  /** The texts exist exactly when none raised. */
  lemma {:induction false} JoinedSomeIff(parts: seq<Option<string>>)
    ensures Joined(parts).Some? <==> forall i :: 0 <= i < |parts| ==> parts[i].Some?
  {
    if parts != [] {
      var init := parts[..|parts| - 1];
      JoinedSomeIff(init);
      assert forall i :: 0 <= i < |init| ==> init[i] == parts[i];
    }
  }

  /** The joined text is empty exactly when every part is. */
  lemma {:induction false} JoinedEmptyIff(parts: seq<Option<string>>)
    ensures Joined(parts) == Some("") <==> forall i :: 0 <= i < |parts| ==> parts[i] == Some("")
  {
    if parts != [] {
      var init := parts[..|parts| - 1];
      JoinedEmptyIff(init);
      assert forall i :: 0 <= i < |init| ==> init[i] == parts[i];
      var a, b := Joined(init), parts[|parts| - 1];
      if Concat(a, b) == Some("") {
        assert |a.value + b.value| == |a.value| + |b.value| == 0;
      }
    }
  }

  lemma {:induction false} JoinedAppend(ps: seq<Option<string>>, qs: seq<Option<string>>)
    ensures Joined(ps + qs) == Concat(Joined(ps), Joined(qs))
    decreases |qs|
  {
    if qs == [] {
      assert ps + qs == ps;
      if Joined(ps).Some? {
        assert Joined(ps).value + "" == Joined(ps).value;
      }
    } else {
      var init := qs[..|qs| - 1];
      var last := qs[|qs| - 1];
      var all := ps + qs;
      assert all[..|all| - 1] == ps + init;
      assert all[|all| - 1] == last;
      JoinedAppend(ps, init);
      var a, b := Joined(ps), Joined(init);
      if a.Some? && b.Some? && last.Some? {
        assert a.value + b.value + last.value == a.value + (b.value + last.value);
      }
    }
  }

  /** The uploads' text exists exactly when no upload raises. */
  lemma FilesTextSomeIff(files: seq<Upload>, env: Services)
    ensures FilesText(files, env).Some? <==> forall i :: 0 <= i < |files| ==> FileText(files[i], env).Some?
  {
    JoinedSomeIff(FileTexts(files, env));
  }

  /** The uploads' text is empty exactly when every upload adds nothing. */
  lemma FilesTextEmptyIff(files: seq<Upload>, env: Services)
    ensures FilesText(files, env) == Some("") <==> forall i :: 0 <= i < |files| ==> FileText(files[i], env) == Some("")
  {
    JoinedEmptyIff(FileTexts(files, env));
  }

  /** The uploads' text is the texts of a first batch of uploads followed
      by those of the rest: upload order is kept. */
  lemma FilesTextAppend(xs: seq<Upload>, ys: seq<Upload>, env: Services)
    ensures FilesText(xs + ys, env) == Concat(FilesText(xs, env), FilesText(ys, env))
  {
    assert FileTexts(xs + ys, env) == FileTexts(xs, env) + FileTexts(ys, env);
    JoinedAppend(FileTexts(xs, env), FileTexts(ys, env));
  }

  /** One upload's text is either raised on or cleaned text (single spaced,
      no whitespace at the ends); it is non-empty only for an accepted
      upload. The upload raises exactly when it is accepted and the
      sanitised name has no '.'. */
  lemma FileTextShape(f: Upload, env: Services)
    ensures FileText(f, env).None? <==> Accepted(f) && '.' !in env.secureFilename(f.filename)
    ensures FileText(f, env).Some? ==> SingleSpaced(FileText(f, env).value)
    ensures FileText(f, env).Some? && FileText(f, env).value != [] ==> Accepted(f)
  {
    CleanTextSingleSpaced(env.pdfText(f.content));
    CleanTextSingleSpaced(env.docxText(f.content));
    CleanTextSingleSpaced(env.txtText(f.content));
  }

  lemma BlankAppend(a: string, b: string)
    ensures IsBlank(a + b) <==> IsBlank(a) && IsBlank(b)
  {
    var ab := a + b;
    if IsBlank(ab) {
      forall i | 0 <= i < |a| ensures IsSpace(a[i]) {
        assert a[i] == ab[i];
      }
      forall i | 0 <= i < |b| ensures IsSpace(b[i]) {
        assert b[i] == ab[|a| + i];
      }
    }
    if IsBlank(a) && IsBlank(b) {
      forall i | 0 <= i < |ab| ensures IsSpace(ab[i]) {
        if i < |a| {
          assert ab[i] == a[i];
        } else {
          assert ab[i] == b[i - |a|];
        }
      }
    }
  }

  /** Texts that each start with a non-whitespace character or are empty
      join to a text that is all whitespace only when it is empty. */
  lemma {:induction false} JoinedBlank(parts: seq<Option<string>>)
    requires forall i :: 0 <= i < |parts| && parts[i].Some? ==>
      parts[i].value == [] || !IsSpace(parts[i].value[0])
    requires Joined(parts).Some?
    ensures IsBlank(Joined(parts).value) <==> Joined(parts).value == []
  {
    if parts != [] {
      var init := parts[..|parts| - 1];
      assert forall i :: 0 <= i < |init| ==> init[i] == parts[i];
      JoinedBlank(init);
      BlankAppend(Joined(init).value, parts[|parts| - 1].value);
    }
  }

  /** The uploads' text is all whitespace only when it is empty. */
  lemma FilesTextBlank(files: seq<Upload>, env: Services)
    requires FilesText(files, env).Some?
    ensures IsBlank(FilesText(files, env).value) <==> FilesText(files, env).value == []
  {
    var parts := FileTexts(files, env);
    forall i | 0 <= i < |parts| && parts[i].Some?
      ensures parts[i].value == [] || !IsSpace(parts[i].value[0])
    {
      FileTextShape(files[i], env);
    }
    JoinedBlank(parts);
  }

  /** The handler fails exactly when some accepted upload's sanitised name
      has no '.'. */
  lemma CrashIff(form: Form, env: Services)
    ensures Respond(Post(form), env) == ServerError <==>
      exists i :: 0 <= i < |form.files| && Accepted(form.files[i]) &&
        '.' !in env.secureFilename(form.files[i].filename)
  {
    FilesTextSomeIff(form.files, env);
    forall i | 0 <= i < |form.files| {
      FileTextShape(form.files[i], env);
    }
  }

  // ---------------------------------------------------------------------
  // Validation

  /** The combined text is blank exactly when every upload adds nothing and
      the pasted text is blank. */
  lemma CombinedBlankIff(form: Form, env: Services)
    requires CombinedText(form, env).Some?
    ensures Strip(CombinedText(form, env).value) == [] <==>
      FilesText(form.files, env) == Some("") && Pasted(form) == []
  {
    var t := FilesText(form.files, env).value;
    var text := t + Pasted(form);
    StripShape(text);
    StripShape(FormValue(form.textInput));
    FilesTextBlank(form.files, env);
    BlankAppend(t, Pasted(form));
  }

  /** In the answering branch every entry is the fallback or carries the
      source label. */
  lemma RankedSources(question: string, ss: seq<string>, env: Services, source: string)
    ensures forall e :: e in Rank(Candidates(question, ss, env, source)) ==> e == NoAnswerFound || e.source == source
  {
    var cs := Candidates(question, ss, env, source);
    if cs != [] {
      RankKeepsBest(cs);
      forall e | e in Rank(cs) ensures e.source == source {
        assert e in multiset(Rank(cs));
        assert e in multiset(cs);
      }
    }
  }

  /** Blank input wins over everything: the single "No document or text
      input provided." entry appears exactly when no upload raises, every
      upload adds nothing and the pasted text is blank, whatever the
      question. */
  lemma NoInputIff(form: Form, env: Services)
    ensures Respond(Post(form), env) == Rendered([NoInputProvided]) <==>
      FilesText(form.files, env) == Some("") && Pasted(form) == []
  {
    if CombinedText(form, env).Some? {
      CombinedBlankIff(form, env);
      var text := CombinedText(form, env).value;
      var source := InputSource(form.files, Pasted(form));
      RankedSources(Question(form), Window(text), env, source);
    }
  }

  /** With text present, a blank question gives exactly the single "Please
      enter a question." entry. */
  lemma QuestionRequired(form: Form, env: Services)
    requires CombinedText(form, env).Some? && Strip(CombinedText(form, env).value) != []
    ensures Respond(Post(form), env) == Rendered([PleaseEnterQuestion]) <==> Question(form) == []
  {
    var text := CombinedText(form, env).value;
    var source := InputSource(form.files, Pasted(form));
    RankedSources(Question(form), Window(text), env, source);
  }

  // ---------------------------------------------------------------------
  // Scoring and ranking

  /** An entry is a candidate exactly when it is the entry of a sentence
      that passes the threshold. */
  lemma {:induction false} CandidatesIff(question: string, ss: seq<string>, env: Services, source: string, e: Answer)
    ensures e in Candidates(question, ss, env, source) <==>
      exists i :: 0 <= i < |ss| && Passes(question, ss[i], env) &&
        e == Entry(ss[i], env.qa(question, ss[i]), env, source)
  {
    if ss != [] {
      var init := ss[..|ss| - 1];
      CandidatesIff(question, init, env, source, e);
      assert forall i :: 0 <= i < |init| ==> init[i] == ss[i];
    }
  }

  /** There is no candidate exactly when no sentence passes. */
  lemma {:induction false} CandidatesEmptyIff(question: string, ss: seq<string>, env: Services, source: string)
    ensures Candidates(question, ss, env, source) == [] <==>
      forall i :: 0 <= i < |ss| ==> !Passes(question, ss[i], env)
  {
    if ss != [] {
      var init := ss[..|ss| - 1];
      CandidatesEmptyIff(question, init, env, source);
      assert forall i :: 0 <= i < |init| ==> init[i] == ss[i];
    }
  }

  /** In the answering branch the page shows one to three entries, in
      non-increasing confidence, each the fallback or labelled with the
      input source. */
  lemma AnswersShape(form: Form, env: Services)
    requires Answering(form, env)
    ensures var r := Respond(Post(form), env).answers;
      && 1 <= |r| <= TopN
      && NonIncreasing(r)
      && forall e :: e in r ==> e == NoAnswerFound || e.source == InputSource(form.files, Pasted(form))
  {
    var text := CombinedText(form, env).value;
    RankedSources(Question(form), Window(text), env, InputSource(form.files, Pasted(form)));
  }

  /** In the answering branch the page shows the "No relevant answer
      found." entry exactly when none of the first fifteen sentences scores
      above 0.2. */
  lemma FallbackIff(form: Form, env: Services)
    requires Answering(form, env)
    ensures var w := Window(CombinedText(form, env).value);
      Respond(Post(form), env).answers == [NoAnswerFound] <==>
        forall i :: 0 <= i < |w| ==> env.qa(Question(form), w[i]).score <= Threshold
  {
    var w := Window(CombinedText(form, env).value);
    var source := InputSource(form.files, Pasted(form));
    CandidatesEmptyIff(Question(form), w, env, source);
    RankFallbackIff(Candidates(Question(form), w, env, source));
  }

  /** In the answering branch every entry other than the fallback is the
      marked-up entry of one of the first fifteen sentences whose score is
      above 0.2. */
  lemma AnswersFromWindow(form: Form, env: Services)
    requires Answering(form, env)
    ensures var w := Window(CombinedText(form, env).value);
      forall e :: e in Respond(Post(form), env).answers && e != NoAnswerFound ==>
        exists i :: (0 <= i < |w| && Passes(Question(form), w[i], env) &&
          e == Entry(w[i], env.qa(Question(form), w[i]), env, InputSource(form.files, Pasted(form))))
  {
    var w := Window(CombinedText(form, env).value);
    var source := InputSource(form.files, Pasted(form));
    var cs := Candidates(Question(form), w, env, source);
    forall e | e in Rank(cs) && e != NoAnswerFound
      ensures exists i :: (0 <= i < |w| && Passes(Question(form), w[i], env) &&
        e == Entry(w[i], env.qa(Question(form), w[i]), env, source))
    {
      RankKeepsBest(cs);
      assert e in multiset(Rank(cs));
      assert e in cs;
      CandidatesIff(Question(form), w, env, source, e);
    }
  }

  /** In the answering branch entries of equal confidence appear in the
      order of their sentences. */
  lemma AnswersKeepSentenceOrder(form: Form, env: Services, c: int)
    requires Answering(form, env)
    ensures var cs := Candidates(Question(form), Window(CombinedText(form, env).value), env, InputSource(form.files, Pasted(form)));
      cs != [] ==> WithConfidence(Respond(Post(form), env).answers, c) <= WithConfidence(cs, c)
  {
    var cs := Candidates(Question(form), Window(CombinedText(form, env).value), env, InputSource(form.files, Pasted(form)));
    if cs != [] {
      RankKeepsEncounterOrder(cs, c);
    }
  }

  /** The "Unknown Source" source never reaches the page: without a named
      upload or pasted text the input is blank. */
  lemma UnknownSourceNeverShown(form: Form, env: Services)
    ensures Respond(Post(form), env).Rendered? ==>
      forall e :: e in Respond(Post(form), env).answers ==> e.source != UnknownSource
  {
    var files := form.files;
    if InputSource(files, Pasted(form)) == UnknownSource {
      forall i | 0 <= i < |files| ensures FileText(files[i], env) == Some("") {
        assert files[i].filename == [];
      }
      FilesTextEmptyIff(files, env);
      NoInputIff(form, env);
    } else if Answering(form, env) {
      AnswersShape(form, env);
    }
  }
}
