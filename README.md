# Text store and extractive summarizer

A model of a small HTTP service. The service keeps short texts in an
in-memory dictionary keyed by integer id and summarizes a stored text.

Summarizing works in four steps:

1. Score every sentence by the number of named entities plus the number of
   noun chunks the NLP pipeline finds in it.
2. Keep the scores in a dictionary keyed by sentence text.
3. Sort the dictionary's items by score, highest first.
4. Join the texts of the first two items with a single space.

The project has two modules:

- `Summarizer` (`summarizer.dfy`) models `summarize_text`. The NLP pipeline
  is not modelled. Its output is the input here: a sequence of
  `Sentence(text, entCount, chunkCount)`.
  - The scoring loop is the method `SummarizeText`. It builds an
    insertion-ordered dictionary as a key list (`order`) plus a score map. It
    is proved equal to the specification function `Summary`.
  - The dictionary is `ScoreTable`. `Put` gives it Python's dict semantics:
    a new key goes to the end, and a repeated key keeps its place but takes
    the new value. `Tally` is the dictionary after all sentences.
  - Python's `sorted(..., reverse=True)` is stable. It is modelled as an
    insertion sort, `SortByScore`, which puts each item in front of the items
    after it that have the same score.
  - `Ranking` is the sorted item list, `Selected` its first two entries, and
    `Summary` their joined texts.
- `TextApi` (`text_api.dfy`) models the global `texts` dictionary as the class
  `TextStore`, whose `map<int, string>` field is updated by the add and
  delete handlers. It also models the summarize route, which looks up a
  missing id as the empty text. The NLP pipeline is a function parameter
  `nlp: string -> seq<Sentence>`.

On these points the model follows what the code does:

- The summary length is fixed at two sentences (`SummaryLength`). It is not a
  parameter.
- Ties are ordered by first occurrence, because the code's `sorted` is stable
  over the dictionary's insertion order.
- A missing id is summarized as the empty text. There is no not-found
  sentinel.
- The add handler always takes the id from the route. There is no automatic
  next id.

## Model

| member | source | states |
|---|---|---|
| Summarizer.SummarizeText | test_api.py:12-26 | the scoring loop builds exactly the dictionary `Tally(sents)` (loop invariant), and the returned summary is `Summary(sents)`: the top two texts of the stable score ranking joined by a space |
| Summarizer.Tally | test_api.py:17-20 | the dictionary filled by the loop lists each key once and lists exactly the keys it maps |
| Summarizer.TallyKeys | test_api.py:17-20 | the dictionary's keys are exactly the sentence texts of the input; repeated texts count once |
| Summarizer.TallyFirstSeenOrder | test_api.py:17-20 | the dictionary's keys are in the order of each text's first occurrence in the input: a repeated text keeps the place of its first insertion |
| Summarizer.TallyLastScore | test_api.py:18-20 | the value under each text is the score (entities plus noun chunks) of the last sentence with that text |
| Summarizer.InsertByScore | test_api.py:22 | inserting one item into the sorted list gives the list plus that item, as a multiset |
| Summarizer.SortByScore | test_api.py:22 | the sort returns a permutation of its input, in non-increasing score order |
| Summarizer.SortByScoreStable | test_api.py:22 | the sort is stable: if the input lists texts in first-seen order, then items of equal score come out in first-seen order |
| Summarizer.SortKeepsDistinct | test_api.py:22 | sorting items with pairwise distinct texts gives items with pairwise distinct texts |
| Summarizer.RankingEntries | test_api.py:17-22 | the ranking holds each distinct sentence text exactly once, with that text's final score, and nothing else |
| Summarizer.RankingTies | test_api.py:17-22 | within the ranking, texts of equal score appear in the order of their first occurrence in the input |
| Summarizer.SelectedSize | test_api.py:22-23 | the summary keeps two sentences, or all distinct texts when there are fewer than two |
| Summarizer.SelectedFromInput | test_api.py:18-23 | every selected text is a sentence of the input, carries the entity-plus-chunk score of its last occurrence, and no text is selected twice |
| Summarizer.SelectedDominates | test_api.py:22-24 | selected entries are in non-increasing score order, and each scores at least as high as every text that is not selected |
| Summarizer.SelectedTieOrder | test_api.py:17-23 | for a selected entry, any text with an equal score whose first occurrence is earlier is also selected, ahead of it |
| Summarizer.SummaryText | test_api.py:24 | the summary is the empty string, the one selected text, or the two selected texts with one space between them; no sentences give the empty string |
| TextApi.TextStore.constructor | test_api.py:7-10 | the store starts with the given dictionary of texts |
| TextApi.TextStore.GetTexts | test_api.py:39-41 | listing returns the whole dictionary, unchanged |
| TextApi.TextStore.AddText | test_api.py:43-49 | afterwards the id maps to the request's text (empty if the field is missing), any earlier text at that id is replaced, every other entry is unchanged, and the id and text are echoed |
| TextApi.TextStore.DeleteText | test_api.py:53-59 | a present id is removed and reported deleted; an absent id is reported not found and the store is unchanged; no other entry changes |
| TextApi.TextStore.SummarizeTextApi | test_api.py:32-37 | the result is the summary of the stored text, and of the empty text when the id is missing |

## Left out

- The NLP pipeline (model loading, sentence segmentation, entity recognition, noun chunks) is a foreign library. Its per-sentence output is an input to the summarizer and a function parameter of the summarize route.
- Flask routing, `request.json` decoding, `jsonify`, `print` and `app.run` are HTTP and I/O plumbing. Handlers take decoded arguments and return decoded results.
- TextApi.TextStore.DeleteText: the reported message is modelled as `Deleted` or `NotFound`, not as its formatted text.
- TextApi.TextStore.AddText: `text_data` is modelled as an optional string. JSON values that are not strings are not modelled.
- The two hard-coded sample texts are initial data. The constructor takes any initial dictionary.
- The pytest fixture and tests exercise only the HTTP layer.
- The unused list of sentence texts in `summarize_text` has no effect on the result.
- Concurrent access to the global dictionary is not modelled. The code defines no concurrency control.
- Flask's `<int:...>` converter admits only non-negative ids. The model allows any integer id.
