# Document question answering: the request pipeline in Dafny

The application is a small Flask site. A user uploads PDF, DOCX or TXT
files and/or pastes text, asks a question, and gets back at most three
sentences of the text. Each sentence has the model's answer span marked
with `<mark>…</mark>`, a confidence score and a label saying where the
text came from. This project models the pipeline behind that page in
`app.py`:

- `allowed_file`, the upload extension check;
- `clean_text`, the whitespace normaliser;
- `split_into_sentences`, the period-based sentence splitter;
- `highlight_answer`, the answer highlighter;
- the body of the `home` route: choosing the source label, building the
  combined text upload by upload, validating it, scoring the first fifteen
  sentences against a 0.2 threshold, sorting by confidence, keeping the
  best three, and falling back.

Files:

- `wrappers.dfy`: `Option`.
- `strings.dfy` (module `Strings`): the Python string builtins the code
  relies on, as functions on `seq<char>`. These are `isspace`, `strip`,
  `split()`, `split(sep)`, `join`, `replace` and `lower`. Lemmas relate
  them, for example: `replace` is joining the `split` pieces with the
  replacement; `split` followed by `join` gives back the string; the scan
  finds the leftmost occurrence.
- `helpers.dfy` (module `Helpers`): the four helper functions and their
  properties.
- `ranking.dfy` (module `Ranking`): the answer entry, the stable sort by
  confidence, highest first, the cut to three, and the fallback entry. The
  sort is defined as an insertion sort and proved to be a permutation,
  non-increasing and stable, which is what `sorted(..., reverse=True)`
  promises.
- `handler.dfy` (module `Handler`): the form, the uploads and the outside
  services as datatypes.
  - `Respond` is the function that specifies the page for a request.
  - `Home` is the handler written step by step: a loop over the uploads
    (`ReadUploads`) and a loop over the sentences (`ScoreSentences`). It is
    proved equal to `Respond`.
  - Lemmas give the validation precedence, the fallback rule, where each
    shown entry comes from, and when the handler fails.

Scores are fixed-point integers in millionths, so the threshold 0.2 is
`200_000`. The sanitiser `secure_filename`, the three extractors, the
question-answering model and `round(score, 2)` are fields of the
`Services` datatype. They are arbitrary total functions, and every
property holds for all of them.

Behaviour of the code worth knowing:

- A sentence is kept when its stripped length is greater than 30
  (`> 30`); a sentence of exactly 30 characters is dropped.
- The label is "Uploaded Document" as soon as any upload has a non-empty
  name, even when every upload is rejected and the text came from the
  pasted input.
- If the sanitised name of an accepted upload no longer contains a '.'
  (for instance "..pdf" sanitised to "pdf"), `rsplit(".", 1)[1]` at
  app.py:95 raises. The request then fails with a server error. The model
  returns `ServerError`, and `Handler.CrashIff` states exactly when this
  happens.
- The "Unknown Source" label is computed but never reaches the page
  (`Handler.UnknownSourceNeverShown`).

## Model

| member | source | states |
|---|---|---|
| Strings.StripShape | app.py:58 | `strip()` returns the slice of the input between a run of leading and a run of trailing whitespace; that slice has no whitespace at either end, and is empty exactly when the input is all whitespace |
| Strings.Words | app.py:43 | `split()` yields non-empty tokens without whitespace |
| Strings.WordsOfToken | app.py:43 | a non-empty text without whitespace is a single token |
| Strings.WordsAtSpace | app.py:43 | `split()` cuts at every whitespace character: the tokens of `a + c + b`, for whitespace `c`, are those of `a` followed by those of `b`; with `WordsOfToken` and `WordsEmptyIff` this fixes the tokens of every string |
| Strings.WordsEmptyIff | app.py:43 | `split()` gives no tokens exactly when the string is all whitespace |
| Strings.PiecesJoin | app.py:58 | joining the pieces of `split(sep)` with `sep` gives back the string |
| Strings.ReplaceJoinsPieces | app.py:62 | `replace(pat, rep)` is the pieces of `split(pat)` joined with `rep`, for every pattern including the empty one |
| Strings.PiecesLeftmost | app.py:62 | no piece contains the start of an occurrence of the pattern: the left-to-right scan never skips a match |
| Strings.PiecesAtSeparator | app.py:58 | splitting `a + d + b` on `d` gives the pieces of `a` followed by those of `b` |
| Strings.WordsSameShape | app.py:40-43 | two strings with whitespace in the same places and equal characters elsewhere have the same tokens, so turning newlines into spaces does not change the tokens |
| Strings.WordsOfJoin | app.py:43 | the tokens of whitespace-free words joined by single spaces are those words |
| Strings.JoinSingleSpaced | app.py:43 | tokens joined by " " have no whitespace at the ends and only single spaces between tokens; the result is empty exactly when there are no tokens |
| Helpers.AllowedFile | app.py:26-27 | defines `allowed_file`; its meaning is stated by `Helpers.AllowedFileIff` |
| Helpers.Extension | app.py:27 | `rsplit(".", 1)[1]` exists exactly when the name contains '.'; it is the suffix after the last '.', which contains no '.' |
| Helpers.AllowedFileIff | app.py:26-27 | a name is accepted exactly when it ends in "." followed by pdf, txt or docx, in any letter case |
| Helpers.CleanText | app.py:38-45 | defines `clean_text`; its properties are stated by `Helpers.CleanTextSingleSpaced`, `Helpers.CleanTextKeepsTokens` and `Helpers.CleanTextIdempotent` |
| Helpers.CleanTextSingleSpaced | app.py:38-45 | the cleaned text has no whitespace at the ends and only single spaces between tokens; it is empty exactly when the input is all whitespace |
| Helpers.CleanTextKeepsTokens | app.py:40-43 | the cleaned text has the same whitespace tokens as the input, in order, and splitting it on " " gives exactly those tokens |
| Helpers.CleanTextIdempotent | app.py:38-45 | cleaning twice is cleaning once |
| Helpers.SplitIntoSentences | app.py:57-58 | every sentence is longer than 30 characters, contains no '.', and has no whitespace at either end |
| Helpers.SentencesAtPeriod | app.py:57-58 | the sentences of `a + "." + b` are the sentences of `a` followed by those of `b`, so order is kept |
| Helpers.SentencesOfFragment | app.py:57-58 | a text without '.' gives its stripped form when that is longer than 30 characters, and nothing otherwise |
| Helpers.HighlightAnswer | app.py:61-62 | defines `highlight_answer`, also used for the inline replace; its properties are stated by `Helpers.HighlightWrapsOccurrences`, `Helpers.HighlightLengthensOnOccurrence` and `Helpers.HighlightChangesIffOccurs` |
| Helpers.HighlightWrapsOccurrences | app.py:61-62 | highlighting cuts the sentence at the occurrences found scanning left to right and puts the marked answer in place of each; the text between occurrences is unchanged |
| Helpers.HighlightLengthensOnOccurrence | app.py:61-62 | an answer that occurs in the sentence makes the result longer |
| Helpers.HighlightChangesIffOccurs | app.py:131-134 | a non-empty answer leaves the sentence unchanged exactly when it does not occur in it |
| Ranking.Take | app.py:141 | the slice `[:n]` is a prefix of length min(n, len) |
| Ranking.InsertKeepsOrder | app.py:140 | inserting into a list in non-increasing order keeps it so |
| Ranking.InsertStable | app.py:140 | an insertion passes only entries of strictly higher confidence, so entries of equal confidence keep their order |
| Ranking.SortByConfidence | app.py:140 | the sorted list is a permutation of the input, in non-increasing confidence |
| Ranking.SortByConfidenceStable | app.py:140 | the sort is stable: entries of any one confidence come out in input order |
| Ranking.Rank | app.py:140-149 | the shown list has one to three entries, in non-increasing confidence |
| Ranking.RankFallbackIff | app.py:143-149 | the fallback entry is shown exactly when there is no candidate |
| Ranking.RankIsTopOfSorted | app.py:140-141 | with candidates, the list is the first min(3, n) sorted entries |
| Ranking.RankKeepsBest | app.py:140-141 | every shown entry is a candidate, and no candidate left out has a higher confidence than the last one shown |
| Ranking.RankKeepsEncounterOrder | app.py:140-141 | the shown entries of any one confidence are the first candidates of that confidence, in order |
| Handler.InputSource | app.py:76-81 | the label is "Uploaded Document" exactly when some upload has a non-empty name (whatever the pasted text); otherwise "Direct Text Input" exactly when the stripped pasted text is non-empty; otherwise "Unknown Source" |
| Handler.Window | app.py:126 | the first min(15, n) of the n sentences: a prefix of the sentence list of exactly that length |
| Handler.Candidates | app.py:126-137 | at most one entry per sentence, each labelled with the input source |
| Handler.FileText | app.py:88-101 | defines what one upload adds to the combined text; its properties are stated by `Handler.FileTextShape` |
| Handler.CombinedText | app.py:84-105 | defines the combined text; its properties are stated by `Handler.FilesTextSomeIff`, `Handler.FilesTextEmptyIff`, `Handler.FilesTextAppend`, `Handler.CombinedBlankIff` and `Handler.CrashIff` |
| Handler.Respond | app.py:68-149 | defines the answer list for a request; `Handler.Home` is proved equal to it, and its properties are stated by `Handler.CrashIff`, `Handler.NoInputIff`, `Handler.QuestionRequired`, `Handler.AnswersShape`, `Handler.FallbackIff`, `Handler.AnswersFromWindow`, `Handler.AnswersKeepSentenceOrder` and `Handler.UnknownSourceNeverShown` |
| Handler.ReadUploads | app.py:84-101 | the upload loop returns `FilesText`: the cleaned texts of the accepted uploads in upload order, or `None` where an extension lookup raises |
| Handler.ScoreSentences | app.py:126-137 | the scoring loop yields the entries of the passing sentences, in sentence order |
| Handler.Home | app.py:68-149 | the handler renders exactly the answer list `Respond` specifies |
| Handler.FilesTextSomeIff | app.py:87-101 | the uploads' text exists exactly when no upload's extension lookup raises |
| Handler.FilesTextEmptyIff | app.py:87-101 | the uploads' text is empty exactly when every upload adds nothing |
| Handler.FilesTextAppend | app.py:87-101 | the uploads' text is the text of the first uploads followed by that of the rest, so upload order is kept |
| Handler.FileTextShape | app.py:88-101 | an upload raises exactly when it is accepted and its sanitised name has no '.'; its text is cleaned text; only an accepted upload adds text |
| Handler.FilesTextBlank | app.py:97-101 | the uploads' text is all whitespace only when it is empty |
| Handler.CrashIff | app.py:88-95 | the request fails exactly when some accepted upload's sanitised name has no '.' |
| Handler.CombinedBlankIff | app.py:103-108 | the combined text is blank exactly when the uploads add nothing and the stripped pasted text is empty |
| Handler.RankedSources | app.py:130-149 | every shown entry in the answering branch is the fallback or carries the input source label |
| Handler.NoInputIff | app.py:108-113 | "No document or text input provided." is shown exactly when the uploads add nothing and the pasted text is blank, whatever the question |
| Handler.QuestionRequired | app.py:114-119 | when there is text, "Please enter a question." is shown exactly when the stripped question is empty |
| Handler.CandidatesIff | app.py:126-137 | an entry is a candidate exactly when it is the marked-up entry of a sentence scoring above 0.2 |
| Handler.CandidatesEmptyIff | app.py:126-137 | there is no candidate exactly when no sentence scores above 0.2 |
| Handler.AnswersShape | app.py:140-149 | in the answering branch the page shows one to three entries in non-increasing confidence, each the fallback or labelled with the input source |
| Handler.FallbackIff | app.py:126-149 | in the answering branch "No relevant answer found." is shown exactly when none of the first fifteen sentences scores above 0.2 |
| Handler.AnswersFromWindow | app.py:126-137 | every shown entry other than the fallback is the marked-up entry of one of the first fifteen sentences, scoring above 0.2 |
| Handler.AnswersKeepSentenceOrder | app.py:140 | shown entries of equal confidence appear in sentence order |
| Handler.UnknownSourceNeverShown | app.py:76-81 | no shown entry carries the "Unknown Source" label |

## Left out

- Flask: application setup, routing, `request.form` and `request.files` access, and `render_template`. The form is the `Form` datatype: a missing field is `None`, which `request.form.get(key, "")` reads as "". A GET request renders an empty list. Other HTTP methods are not modelled.
- Saving uploads: `os.makedirs`, `os.path.join` and `f.save` (app.py:91-93) are file-system I/O. The extractors are applied directly to the upload's bytes. Two requests that save files under the same name at the same time can overwrite each other's file; this concurrency is not modelled.
- `secure_filename` (app.py:89) is foreign code. It is the `Services.secureFilename` parameter.
- `extract_pdf_text`, `extract_docx_text` and `extract_txt_text` (app.py:30-54) are file reads and the PyPDF2 and python-docx libraries. Each is an arbitrary total function from bytes to text. Their exceptions (a corrupt file, invalid UTF-8) are not modelled.
- The DistilBERT question-answering pipeline (app.py:20-23, app.py:127) is the `Services.qa` parameter, a total function returning an answer span and a score. Its exceptions are not modelled.
- Floating point: scores are integers in millionths. `round(score, 2)` is the `Services.round2` parameter, not float rounding. The fallback entries' confidence 0.0 is 0.
- The `print` at app.py:152 and `app.run` at app.py:157-158 are output only.
- Unicode: whitespace is the ASCII part of Python's `isspace` (tab to carriage return, the separators 0x1C-0x1F, and space), and `lower` folds ASCII letters only. For `allowed_file` this changes nothing, because no non-ASCII character lowercases to a letter of "pdf", "txt" or "docx". For `strip`, `split()` and the blank-input check, non-ASCII whitespace is treated as text.
