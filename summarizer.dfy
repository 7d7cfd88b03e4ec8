/** Extractive summarizer: every sentence is scored by the number of named
    entities plus the number of noun chunks it contains, the scores are kept
    in a dictionary keyed by sentence text, the dictionary's items are sorted
    by score (highest first, stable), and the texts of the first two items are
    joined with a single space.

    The NLP pipeline (segmentation, entity recognition, noun chunks) is not
    modelled: its output is the input here, one `Sentence` per sentence. */
module Summarizer {

  /** A sentence as the NLP pipeline annotates it. */
  datatype Sentence = Sentence(text: string, entCount: nat, chunkCount: nat)

  /** One item of the score dictionary: a sentence text and its score. */
  datatype Entry = Entry(text: string, score: nat)

  /** The score dictionary: its keys in insertion order, and the value of each key. */
  datatype ScoreTable = ScoreTable(order: seq<string>, score: map<string, nat>)

  /** How many sentences a summary keeps. */
  const SummaryLength: nat := 2

  function Min(a: nat, b: nat): nat { if a <= b then a else b }

  /** A sentence's score: entities plus noun chunks found in it. */
  function Score(s: Sentence): nat { s.entCount + s.chunkCount }

  /** The sentence texts, in document order (repeats included). */
  function Texts(sents: seq<Sentence>): seq<string>
  {
    seq(|sents|, i requires 0 <= i < |sents| => sents[i].text)
  }

  /** The distinct sentence texts. */
  function TextSet(sents: seq<Sentence>): set<string>
  {
    set t | t in Texts(sents)
  }

  function EntryTexts(es: seq<Entry>): seq<string>
  {
    seq(|es|, i requires 0 <= i < |es| => es[i].text)
  }

  predicate Distinct(s: seq<string>)
  {
    forall i, j :: 0 <= i < j < |s| ==> s[i] != s[j]
  }

  /** A dictionary lists each key once, and lists exactly the keys it maps. */
  ghost predicate WellFormed(t: ScoreTable)
  {
    Distinct(t.order) && forall k :: k in t.order <==> k in t.score
  }

  // ---------------------------------------------------------------------------
  // Positions of a text in the sentence sequence
  // ---------------------------------------------------------------------------

  /** Where `t` first occurs in `ts`. */
  function FirstIndex(ts: seq<string>, t: string): (i: nat)
    requires t in ts
    ensures i < |ts| && ts[i] == t
    ensures forall j :: 0 <= j < i ==> ts[j] != t
  {
    if ts[0] == t then 0 else 1 + FirstIndex(ts[1..], t)
  }

  /** Where `t` last occurs in `ts`. */
  function LastIndex(ts: seq<string>, t: string): (i: nat)
    requires t in ts
    ensures i < |ts| && ts[i] == t
    ensures forall j :: i < j < |ts| ==> ts[j] != t
    decreases |ts|
  {
    var n := |ts| - 1;
    if ts[n] == t then n
    else
      assert ts == ts[..n] + [ts[n]];
      LastIndex(ts[..n], t)
  }

  /** The score of the last sentence whose text is `k`: the value the
      dictionary holds for `k` once every sentence has been scored. */
  ghost function FinalScore(sents: seq<Sentence>, k: string): nat
    requires k in Texts(sents)
  {
    Score(sents[LastIndex(Texts(sents), k)])
  }

  /** `keys` are texts of `ts`, listed in the order of their first occurrence. */
  ghost predicate InFirstSeenOrder(keys: seq<string>, ts: seq<string>)
  {
    && (forall k :: k in keys ==> k in ts)
    && forall i, j :: 0 <= i < j < |keys| ==> FirstIndex(ts, keys[i]) < FirstIndex(ts, keys[j])
  }

  lemma FirstIndexAppend(ts: seq<string>, u: string, k: string)
    requires k in ts
    ensures FirstIndex(ts + [u], k) == FirstIndex(ts, k)
  {
    var b := FirstIndex(ts, k);
    assert (ts + [u])[b] == k;
  }

  lemma LastIndexAppend(ts: seq<string>, u: string, k: string)
    requires k in ts && k != u
    ensures LastIndex(ts + [u], k) == LastIndex(ts, k)
  {
    assert (ts + [u])[..|ts|] == ts;
  }

  // ---------------------------------------------------------------------------
  // Building the score dictionary
  // ---------------------------------------------------------------------------

  /** `d[k] = v` on an insertion-ordered dictionary: a new key goes to the
      end, a key already present keeps its place and takes the new value. */
  function Put(t: ScoreTable, k: string, v: nat): ScoreTable
  {
    ScoreTable(if k in t.score then t.order else t.order + [k], t.score[k := v])
  }

  /** The dictionary after every sentence has been scored, in document order. */
  function Tally(sents: seq<Sentence>): (t: ScoreTable)
    ensures WellFormed(t)
    decreases |sents|
  {
    if sents == [] then ScoreTable([], map[])
    else
      var last := sents[|sents| - 1];
      Put(Tally(sents[..|sents| - 1]), last.text, Score(last))
  }

  lemma TextsAppend(sents: seq<Sentence>)
    requires sents != []
    ensures Texts(sents) == Texts(sents[..|sents| - 1]) + [sents[|sents| - 1].text]
  {
  }

  /** The dictionary's keys are exactly the distinct sentence texts. */
  lemma {:induction false} TallyKeys(sents: seq<Sentence>)
    ensures forall k :: k in Tally(sents).score <==> k in Texts(sents)
    decreases |sents|
  {
    if sents != [] {
      TallyKeys(sents[..|sents| - 1]);
      TextsAppend(sents);
    }
  }

  /** Appending a text to `ts` keeps keys in first-seen order; a text not seen
      before may then be listed after them. */
  lemma FirstSeenAppend(keys: seq<string>, ts: seq<string>, u: string)
    requires InFirstSeenOrder(keys, ts)
    ensures InFirstSeenOrder(keys, ts + [u])
    ensures u !in ts ==> InFirstSeenOrder(keys + [u], ts + [u])
  {
    forall k | k in keys
      ensures FirstIndex(ts + [u], k) == FirstIndex(ts, k) < |ts|
    {
      FirstIndexAppend(ts, u, k);
    }
    if u !in ts {
      var after := keys + [u];
      assert FirstIndex(ts + [u], u) == |ts|;
      forall i, j | 0 <= i < j < |after|
        ensures FirstIndex(ts + [u], after[i]) < FirstIndex(ts + [u], after[j])
      {
        assert after[i] == keys[i] && keys[i] in keys;
        if j < |keys| {
          assert after[j] == keys[j];
        }
      }
    }
  }

  /** A text keeps the position of its first insertion. */
  lemma {:induction false} TallyFirstSeenOrder(sents: seq<Sentence>)
    ensures InFirstSeenOrder(Tally(sents).order, Texts(sents))
    decreases |sents|
  {
    if sents != [] {
      var n := |sents| - 1;
      TallyFirstSeenOrder(sents[..n]);
      TallyKeys(sents[..n]);
      TextsAppend(sents);
      FirstSeenAppend(Tally(sents[..n]).order, Texts(sents[..n]), sents[n].text);
    }
  }

  /** A text carries the score of its last occurrence. */
  lemma {:induction false} TallyLastScore(sents: seq<Sentence>)
    ensures forall k :: k in Tally(sents).score ==>
      k in Texts(sents) && Tally(sents).score[k] == FinalScore(sents, k)
    decreases |sents|
  {
    if sents != [] {
      var n := |sents| - 1;
      var prefix := sents[..n];
      var ps, u := Texts(prefix), sents[n].text;
      TallyLastScore(prefix);
      TallyKeys(sents);
      TextsAppend(sents);
      forall k | k in Tally(sents).score
        ensures Tally(sents).score[k] == FinalScore(sents, k)
      {
        if k == u {
          assert LastIndex(ps + [u], u) == n;
        } else {
          LastIndexAppend(ps, u, k);
          assert sents[LastIndex(ps, k)] == prefix[LastIndex(ps, k)];
        }
      }
    }
  }

  // ---------------------------------------------------------------------------
  // Stable sort by score, highest first
  // ---------------------------------------------------------------------------

  predicate NonIncreasing(s: seq<Entry>)
  {
    forall i, j :: 0 <= i < j < |s| ==> s[i].score >= s[j].score
  }

  predicate DistinctTexts(s: seq<Entry>)
  {
    forall i, j :: 0 <= i < j < |s| ==> s[i].text != s[j].text
  }

  /** Entries of equal score appear in the order their texts first occur in `ts`. */
  ghost predicate TiesInFirstSeenOrder(s: seq<Entry>, ts: seq<string>)
  {
    && (forall i :: 0 <= i < |s| ==> s[i].text in ts)
    && forall i, j :: 0 <= i < j < |s| && s[i].score == s[j].score ==>
         FirstIndex(ts, s[i].text) < FirstIndex(ts, s[j].text)
  }

  /** Inserts `x` before the first entry whose score is not above its own. */
  function InsertByScore(x: Entry, s: seq<Entry>): (r: seq<Entry>)
    ensures multiset(r) == multiset(s) + multiset{x}
  {
    if s == [] || s[0].score <= x.score then [x] + s
    else
      assert s == [s[0]] + s[1..];
      [s[0]] + InsertByScore(x, s[1..])
  }

  /** An entry of `InsertByScore(x, s)` is `x` or an entry of `s`. */
  lemma InsertedFrom(x: Entry, s: seq<Entry>, j: nat)
    requires j < |InsertByScore(x, s)|
    ensures InsertByScore(x, s)[j] == x || InsertByScore(x, s)[j] in s
  {
    var r := InsertByScore(x, s);
    assert r[j] in multiset(r);
  }

  lemma {:induction false} InsertKeepsOrder(x: Entry, s: seq<Entry>)
    requires NonIncreasing(s)
    ensures NonIncreasing(InsertByScore(x, s))
  {
    if s != [] && s[0].score > x.score {
      InsertKeepsOrder(x, s[1..]);
      var rest := InsertByScore(x, s[1..]);
      forall j | 0 <= j < |rest|
        ensures rest[j].score <= s[0].score
      {
        InsertedFrom(x, s[1..], j);
      }
    }
  }

  /** Python's `sorted(items, key=score, reverse=True)`: an insertion sort
      that puts each entry in front of the equal-scored entries after it. */
  function SortByScore(s: seq<Entry>): (r: seq<Entry>)
    ensures multiset(r) == multiset(s)
    ensures NonIncreasing(r)
  {
    if s == [] then []
    else
      assert s == [s[0]] + s[1..];
      InsertKeepsOrder(s[0], SortByScore(s[1..]));
      InsertByScore(s[0], SortByScore(s[1..]))
  }

  lemma {:induction false} InsertKeepsDistinct(x: Entry, s: seq<Entry>)
    requires DistinctTexts(s)
    requires forall e :: e in s ==> e.text != x.text
    ensures DistinctTexts(InsertByScore(x, s))
  {
    if s != [] && s[0].score > x.score {
      InsertKeepsDistinct(x, s[1..]);
      var rest := InsertByScore(x, s[1..]);
      forall j | 0 <= j < |rest|
        ensures rest[j].text != s[0].text
      {
        InsertedFrom(x, s[1..], j);
      }
    }
  }

  /** Putting `x` in front of entries whose equally scored texts all occur
      after its own keeps ties in first-seen order. */
  lemma PrependKeepsTies(x: Entry, s: seq<Entry>, ts: seq<string>)
    requires TiesInFirstSeenOrder(s, ts)
    requires x.text in ts
    requires forall e :: e in s && e.score == x.score ==> FirstIndex(ts, x.text) < FirstIndex(ts, e.text)
    ensures TiesInFirstSeenOrder([x] + s, ts)
  {
    var r := [x] + s;
    forall i, j | 0 <= i < j < |r| && r[i].score == r[j].score
      ensures FirstIndex(ts, r[i].text) < FirstIndex(ts, r[j].text)
    {
      assert r[j] == s[j - 1];
      if i == 0 {
        assert s[j - 1] in s;
      } else {
        assert r[i] == s[i - 1];
      }
    }
  }

  lemma {:induction false} InsertKeepsTies(x: Entry, s: seq<Entry>, ts: seq<string>)
    requires TiesInFirstSeenOrder(s, ts)
    requires x.text in ts
    requires forall e :: e in s ==> FirstIndex(ts, x.text) < FirstIndex(ts, e.text)
    ensures TiesInFirstSeenOrder(InsertByScore(x, s), ts)
  {
    if s == [] || s[0].score <= x.score {
      PrependKeepsTies(x, s, ts);
    } else {
      var r := InsertByScore(x, s);
      InsertKeepsTies(x, s[1..], ts);
      var rest := InsertByScore(x, s[1..]);
      assert r == [s[0]] + rest;
      forall j | 0 <= j < |rest|
        ensures rest[j].text in ts
        ensures rest[j].score == s[0].score ==>
          FirstIndex(ts, s[0].text) < FirstIndex(ts, rest[j].text)
      {
        InsertedFrom(x, s[1..], j);
        if rest[j] != x {
          var p :| 0 <= p < |s[1..]| && s[1..][p] == rest[j];
          assert s[p + 1] == rest[j];
        }
      }
      PrependKeepsTies(s[0], rest, ts);
    }
  }

  /** Entries with distinct texts stay distinct after sorting. */
  lemma {:induction false} SortKeepsDistinct(s: seq<Entry>)
    requires DistinctTexts(s)
    ensures DistinctTexts(SortByScore(s))
  {
    if s != [] {
      SortKeepsDistinct(s[1..]);
      var sorted := SortByScore(s[1..]);
      assert forall e :: e in sorted ==> e in multiset(s[1..]);
      InsertKeepsDistinct(s[0], sorted);
    }
  }

  /** The sort is stable: when the input lists texts in first-seen order,
      entries of equal score come out in first-seen order. */
  lemma {:induction false} SortByScoreStable(s: seq<Entry>, ts: seq<string>)
    requires InFirstSeenOrder(EntryTexts(s), ts)
    ensures TiesInFirstSeenOrder(SortByScore(s), ts)
  {
    if s != [] {
      var x := s[0];
      assert EntryTexts(s) == [x.text] + EntryTexts(s[1..]);
      assert EntryTexts(s[1..]) == EntryTexts(s)[1..];
      SortByScoreStable(s[1..], ts);
      var sorted := SortByScore(s[1..]);
      forall e | e in sorted
        ensures FirstIndex(ts, x.text) < FirstIndex(ts, e.text)
      {
        assert e in multiset(s[1..]);
        var p :| 0 <= p < |s[1..]| && s[1..][p] == e;
        assert EntryTexts(s)[0] == x.text && EntryTexts(s)[p + 1] == e.text;
      }
      InsertKeepsTies(x, sorted, ts);
    }
  }

  // ---------------------------------------------------------------------------
  // Ranking, selection and the summary
  // ---------------------------------------------------------------------------

  /** The dictionary's items, in insertion order. */
  function Items(t: ScoreTable): seq<Entry>
    requires forall k :: k in t.order ==> k in t.score
  {
    seq(|t.order|, i requires 0 <= i < |t.order| => Entry(t.order[i], t.score[t.order[i]]))
  }

  /** Every distinct sentence text with its score, highest score first. */
  function Ranking(sents: seq<Sentence>): seq<Entry>
  {
    SortByScore(Items(Tally(sents)))
  }

  /** The entries the summary keeps: the first two of the ranking. */
  function Selected(sents: seq<Sentence>): seq<Entry>
  {
    var r := Ranking(sents);
    r[..Min(SummaryLength, |r|)]
  }

  /** `' '.join(parts)`. */
  function Join(parts: seq<string>): string
  {
    if parts == [] then ""
    else if |parts| == 1 then parts[0]
    else parts[0] + " " + Join(parts[1..])
  }

  /** The summary of an annotated text. */
  function Summary(sents: seq<Sentence>): string
  {
    Join(EntryTexts(Selected(sents)))
  }

  /** Every item of the ranking is a distinct sentence text with its final
      score, and every distinct text is in the ranking. */
  lemma RankingEntries(sents: seq<Sentence>)
    ensures forall e :: e in Ranking(sents) ==>
      e.text in Texts(sents) && e.score == FinalScore(sents, e.text)
    ensures forall k :: k in Texts(sents) ==> Entry(k, FinalScore(sents, k)) in Ranking(sents)
    ensures DistinctTexts(Ranking(sents))
    ensures |Ranking(sents)| == |Tally(sents).order|
  {
    var t := Tally(sents);
    var items := Items(t);
    TallyKeys(sents);
    TallyLastScore(sents);
    forall e | e in Ranking(sents)
      ensures e.text in Texts(sents) && e.score == FinalScore(sents, e.text)
    {
      assert e in multiset(items);
    }
    forall k | k in Texts(sents)
      ensures Entry(k, FinalScore(sents, k)) in Ranking(sents)
    {
      var p :| 0 <= p < |t.order| && t.order[p] == k;
      assert items[p] == Entry(k, FinalScore(sents, k));
      assert items[p] in multiset(Ranking(sents));
    }
    SortKeepsDistinct(items);
    assert |multiset(Ranking(sents))| == |multiset(items)|;
  }

  /** Equal scores in the ranking appear in first-seen order of their texts. */
  lemma RankingTies(sents: seq<Sentence>)
    ensures TiesInFirstSeenOrder(Ranking(sents), Texts(sents))
  {
    var t := Tally(sents);
    TallyKeys(sents);
    TallyFirstSeenOrder(sents);
    assert EntryTexts(Items(t)) == t.order;
    SortByScoreStable(Items(t), Texts(sents));
  }

  /** Where the ranking lists text `k`. */
  lemma RankedAt(sents: seq<Sentence>, k: string) returns (q: nat)
    requires k in Texts(sents)
    ensures q < |Ranking(sents)| && Ranking(sents)[q] == Entry(k, FinalScore(sents, k))
  {
    RankingEntries(sents);
    assert Entry(k, FinalScore(sents, k)) in Ranking(sents);
    q :| q < |Ranking(sents)| && Ranking(sents)[q] == Entry(k, FinalScore(sents, k));
  }

  /** A text missing from the first `m` entries is ranked at `m` or later. */
  lemma UnselectedRankedAfter(r: seq<Entry>, m: nat, q: nat, k: string)
    requires m <= |r| && q < |r| && r[q].text == k && k !in EntryTexts(r[..m])
    ensures m <= q
  {
    forall p | 0 <= p < m
      ensures r[p].text in EntryTexts(r[..m])
    {
      assert EntryTexts(r[..m])[p] == r[p].text;
    }
  }

  /** Of two equally scored entries, the one whose text occurs first in `ts`
      is ranked first. */
  lemma TieRankedBefore(r: seq<Entry>, ts: seq<string>, i: nat, q: nat)
    requires TiesInFirstSeenOrder(r, ts)
    requires i < |r| && q < |r| && r[q].score == r[i].score
    requires FirstIndex(ts, r[q].text) < FirstIndex(ts, r[i].text)
    ensures q < i
  {
  }

  lemma {:induction false} DistinctCardinality(s: seq<string>)
    requires Distinct(s)
    ensures |set x | x in s| == |s|
  {
    if s != [] {
      DistinctCardinality(s[1..]);
      assert (set x | x in s) == {s[0]} + (set x | x in s[1..]);
      assert s[0] !in (set x | x in s[1..]);
    }
  }

  /** The summary keeps two sentences, or all distinct texts when there are
      fewer than two. */
  lemma SelectedSize(sents: seq<Sentence>)
    ensures |Selected(sents)| == Min(SummaryLength, |TextSet(sents)|)
  {
    var t := Tally(sents);
    RankingEntries(sents);
    TallyKeys(sents);
    assert (set x | x in t.order) == TextSet(sents);
    DistinctCardinality(t.order);
  }

  /** Every selected entry is a sentence text of the input, carrying the score
      (entity count plus chunk count) of that text's last occurrence, and no
      text is selected twice. */
  lemma SelectedFromInput(sents: seq<Sentence>)
    ensures forall i :: 0 <= i < |Selected(sents)| ==>
      Selected(sents)[i].text in Texts(sents) &&
      Selected(sents)[i].score == FinalScore(sents, Selected(sents)[i].text)
    ensures Distinct(EntryTexts(Selected(sents)))
  {
    RankingEntries(sents);
    var r := Ranking(sents);
    forall i | 0 <= i < |Selected(sents)|
      ensures Selected(sents)[i] in r
    {
      assert Selected(sents)[i] == r[i];
    }
  }

  /** Selected entries are in non-increasing score order, and each scores at
      least as high as every text that was not selected. */
  lemma SelectedDominates(sents: seq<Sentence>)
    ensures forall i, j :: 0 <= i < j < |Selected(sents)| ==>
      Selected(sents)[i].score >= Selected(sents)[j].score
    ensures forall i, k ::
      (0 <= i < |Selected(sents)| && k in Texts(sents) && k !in EntryTexts(Selected(sents))) ==>
      Selected(sents)[i].score >= FinalScore(sents, k)
  {
    var r, sel := Ranking(sents), Selected(sents);
    assert NonIncreasing(r);
    forall i, k | 0 <= i < |sel| && k in Texts(sents) && k !in EntryTexts(sel)
      ensures sel[i].score >= FinalScore(sents, k)
    {
      var q := RankedAt(sents, k);
      UnselectedRankedAfter(r, |sel|, q, k);
      assert sel[i] == r[i];
    }
  }

  /** Among equal scores, the text that occurs first in the input is ranked
      first: a text with the same score as a selected one and an earlier first
      occurrence is selected, ahead of it. */
  lemma SelectedTieOrder(sents: seq<Sentence>)
    ensures forall i :: 0 <= i < |Selected(sents)| ==> Selected(sents)[i].text in Texts(sents)
    ensures forall i, k ::
      (&& 0 <= i < |Selected(sents)| && k in Texts(sents)
       && FinalScore(sents, k) == Selected(sents)[i].score
       && FirstIndex(Texts(sents), k) < FirstIndex(Texts(sents), Selected(sents)[i].text)) ==>
      k in EntryTexts(Selected(sents)[..i])
  {
    var r, sel, ts := Ranking(sents), Selected(sents), Texts(sents);
    RankingTies(sents);
    assert forall i :: 0 <= i < |sel| ==> sel[i] == r[i];
    forall i, k | 0 <= i < |sel| && k in ts && FinalScore(sents, k) == sel[i].score &&
      FirstIndex(ts, k) < FirstIndex(ts, sel[i].text)
      ensures k in EntryTexts(sel[..i])
    {
      var q := RankedAt(sents, k);
      TieRankedBefore(r, ts, i, q);
      assert EntryTexts(sel[..i])[q] == k;
    }
  }

  /** The summary is the selected texts joined by one space; no sentences
      give the empty string. */
  lemma SummaryText(sents: seq<Sentence>)
    ensures var sel := Selected(sents);
      Summary(sents) == if |sel| == 0 then ""
                        else if |sel| == 1 then sel[0].text
                        else sel[0].text + " " + sel[1].text
    ensures sents == [] ==> Summary(sents) == ""
  {
    var sel := Selected(sents);
    assert |sel| <= 2;
    if |sel| == 2 {
      assert EntryTexts(sel)[1..] == [sel[1].text];
      assert Join(EntryTexts(sel)[1..]) == sel[1].text;
    }
  }

  /** `summarize_text`: the scoring loop fills an insertion-ordered dictionary,
      then the items are sorted, the first two kept and their texts joined. */
  method SummarizeText(sents: seq<Sentence>) returns (summary: string)
    ensures summary == Summary(sents)
  {
    var order: seq<string> := [];
    var scores: map<string, nat> := map[];
    for i := 0 to |sents|
      invariant ScoreTable(order, scores) == Tally(sents[..i])
    {
      var s := sents[i];
      assert sents[..i + 1][..i] == sents[..i];
      if s.text !in scores {
        order := order + [s.text];
      }
      scores := scores[s.text := Score(s)];
    }
    assert sents[..|sents|] == sents;
    var ranked := SortByScore(Items(ScoreTable(order, scores)));
    var top := ranked[..Min(SummaryLength, |ranked|)];
    summary := Join(EntryTexts(top));
  }
}
