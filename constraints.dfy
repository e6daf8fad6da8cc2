/** The violation-counting constraints of the grammar. Each maps a surface form
    to a count; the faithfulness constraint Max also reads the underlying form.
    Counts are naturals, and every unsigned subtraction of the source becomes a
    precondition. */
module Constraints {
  import opened Segments
  import opened Syllabifier
  import opened Candidates

  /** Onset: nuclei minus onsets, defined when onsets do not outnumber nuclei. */
  function OnsetEvaluate(surface: seq<Segment>): (r: nat)
    requires Count(surface, Onset) <= Count(surface, Nucleus)
    ensures r <= Count(surface, Nucleus)
    ensures r == 0 <==> Count(surface, Onset) == Count(surface, Nucleus)
  {
    Count(surface, Nucleus) - Count(surface, Onset)
  }

  /** Independent count for Onset: nuclei not directly preceded by an onset.
      `afterOnset` says whether the segment before `form` was an onset. */
  function NucleiWithoutOnset(form: seq<Segment>, afterOnset: bool): nat {
    if form == [] then 0
    else
      (if form[0].charType == Nucleus && !afterOnset then 1 else 0)
      + NucleiWithoutOnset(form[1..], form[0].charType == Onset)
  }

  lemma {:induction false} NucleiSplit(form: seq<Segment>)
    requires OnsetsPrecedeNuclei(form)
    ensures Count(form, Nucleus) == Count(form, Onset) + NucleiWithoutOnset(form, false)
  {
    if form == [] {
    } else if form[0].charType == Onset {
      var rest := form[2..];
      assert form[1..][1..] == rest;
      assert OnsetsPrecedeNuclei(rest) by {
        forall i | 0 <= i < |rest| && rest[i].charType == Onset
          ensures i + 1 < |rest| && rest[i + 1].charType == Nucleus
        {
          assert form[i + 2] == rest[i];
        }
      }
      NucleiSplit(rest);
    } else {
      var rest := form[1..];
      assert OnsetsPrecedeNuclei(rest) by {
        forall i | 0 <= i < |rest| && rest[i].charType == Onset
          ensures i + 1 < |rest| && rest[i + 1].charType == Nucleus
        {
          assert form[i + 1] == rest[i];
        }
      }
      NucleiSplit(rest);
    }
  }

  /** On a form where every onset precedes a nucleus, Onset is defined and
      counts exactly the nuclei that lack an onset. */
  lemma {:induction false} OnsetCountsBareNuclei(surface: seq<Segment>)
    requires OnsetsPrecedeNuclei(surface)
    ensures Count(surface, Onset) <= Count(surface, Nucleus)
    ensures OnsetEvaluate(surface) == NucleiWithoutOnset(surface, false)
  {
    NucleiSplit(surface);
  }

  /** Sonority weight of the first character of a segment: the mid vowels
      weigh 1, "u" 2, "i" 3, and anything else ("a" and consonants) 0. */
  function Weight(c: char): (w: nat)
    ensures w <= 3
  {
    match c
    case 'e' => 1
    case 'ɛ' => 1
    case 'o' => 1
    case 'ɔ' => 1
    case 'u' => 2
    case 'i' => 3
    case _ => 0
  }

  /** Every segment has at least one character to weigh. */
  predicate NonEmptyTexts(form: seq<Segment>) {
    forall i :: 0 <= i < |form| ==> |form[i].text| > 0
  }

  /** SonSeqPr: the sum over the form of the weight of each segment's first
      character; whatever follows that character is ignored. */
  function SonSeqPrEvaluate(surface: seq<Segment>): (r: nat)
    requires NonEmptyTexts(surface)
    ensures r <= 3 * |surface|
  {
    if surface == [] then 0
    else Weight(surface[0].text[0]) + SonSeqPrEvaluate(surface[1..])
  }

  lemma {:induction false} SonSeqPrAppend(a: seq<Segment>, b: seq<Segment>)
    requires NonEmptyTexts(a) && NonEmptyTexts(b)
    ensures NonEmptyTexts(a + b)
    ensures SonSeqPrEvaluate(a + b) == SonSeqPrEvaluate(a) + SonSeqPrEvaluate(b)
  {
    if a == [] {
      assert a + b == b;
    } else {
      assert (a + b)[1..] == a[1..] + b;
      SonSeqPrAppend(a[1..], b);
    }
  }

  /** SonSeqPr reads only the first character of each text: two forms whose
      texts start alike position by position score the same, whatever their
      accents or syllable positions. */
  lemma {:induction false} SonSeqPrFirstCharsOnly(a: seq<Segment>, b: seq<Segment>)
    requires NonEmptyTexts(a) && NonEmptyTexts(b) && |a| == |b|
    requires forall i :: 0 <= i < |a| ==> a[i].text[0] == b[i].text[0]
    ensures SonSeqPrEvaluate(a) == SonSeqPrEvaluate(b)
  {
    if a != [] {
      SonSeqPrFirstCharsOnly(a[1..], b[1..]);
    }
  }

  /** Deleting a segment lowers SonSeqPr by exactly that segment's weight. */
  lemma SonSeqPrRemoveAt(form: seq<Segment>, i: nat)
    requires NonEmptyTexts(form) && i < |form|
    ensures NonEmptyTexts(RemoveAt(form, i))
    ensures SonSeqPrEvaluate(form) == SonSeqPrEvaluate(RemoveAt(form, i)) + Weight(form[i].text[0])
  {
    var pre, tail, post := form[..i], form[i..], form[i + 1..];
    assert form == pre + tail;
    assert tail[1..] == post;
    assert NonEmptyTexts(pre) && NonEmptyTexts(tail) && NonEmptyTexts(post);
    SonSeqPrAppend(pre, tail);
    SonSeqPrAppend(pre, post);
    assert RemoveAt(form, i) == pre + post;
  }

  /** No chain of deletions raises SonSeqPr. */
  lemma {:induction false} SonSeqPrDeleteMany(form: seq<Segment>, draws: seq<nat>)
    requires NonEmptyTexts(form)
    ensures NonEmptyTexts(DeleteMany(form, draws))
    ensures SonSeqPrEvaluate(DeleteMany(form, draws)) <= SonSeqPrEvaluate(form)
    decreases |draws|
  {
    if draws != [] {
      var once := DeleteOnce(form, draws[0]);
      if form != [] {
        SonSeqPrRemoveAt(form, draws[0] % |form|);
      }
      SonSeqPrDeleteMany(once, draws[1..]);
    }
  }

  /** The two halves of the untagged test word "owókíowó". */
  const OWOK: seq<Segment> :=
    [Segment("o", None), Segment("w", None), Segment("o\U{0301}", None), Segment("k", None)]
  const IOWO: seq<Segment> :=
    [Segment("i\U{0301}", None), Segment("o", None), Segment("w", None), Segment("o\U{0301}", None)]

  lemma SonSeqPrHalves()
    ensures NonEmptyTexts(OWOK) && SonSeqPrEvaluate(OWOK) == 2
    ensures NonEmptyTexts(IOWO) && SonSeqPrEvaluate(IOWO) == 5
  {
  }

  /** Syllabification leaves SonSeqPr unchanged: it keeps every text. */
  lemma SonSeqPrSyllabify(candidate: seq<Segment>)
    requires NonEmptyTexts(candidate)
    ensures NonEmptyTexts(Syllabify(candidate))
    ensures SonSeqPrEvaluate(Syllabify(candidate)) == SonSeqPrEvaluate(candidate)
  {
    SonSeqPrFirstCharsOnly(Syllabify(candidate), candidate);
  }

  /** The test word scores 7: o, ó and ó weigh 1 each, í weighs 3, the other
      o 1, and the consonants nothing. */
  lemma SonSeqPrOwokiowo(word: seq<Segment>)
    requires |word| == 8
    requires forall i :: 0 <= i < 8 ==> word[i].text == OWOKIOWO[i]
    ensures NonEmptyTexts(word)
    ensures SonSeqPrEvaluate(word) == 7
  {
    var lit := OWOK + IOWO;
    assert forall i :: 0 <= i < 8 ==> lit[i].text == OWOKIOWO[i];
    SonSeqPrHalves();
    SonSeqPrAppend(OWOK, IOWO);
    SonSeqPrFirstCharsOnly(word, lit);
  }

  /** Syllabify: the number of segments left without a syllable position. */
  function SyllabifyEvaluate(surface: seq<Segment>): (r: nat)
    ensures r <= |surface|
    ensures r == 0 <==> forall i :: 0 <= i < |surface| ==> surface[i].charType != None
  {
    Count(surface, None)
  }

  /** A syllabified form never violates Syllabify. */
  lemma SyllabifyEvaluateSyllabified(candidate: seq<Segment>)
    ensures SyllabifyEvaluate(Syllabify(candidate)) == 0
  {
  }

  /** Max: three violations per underlying segment missing from the surface,
      defined when the surface is no longer than the underlying form. */
  function MaxEvaluate(underlying: seq<Segment>, surface: seq<Segment>): (r: nat)
    requires |surface| <= |underlying|
    ensures r % 3 == 0
    ensures r == 0 <==> |surface| == |underlying|
  {
    (|underlying| - |surface|) * 3
  }

  /** After k deletions from the underlying form, Max reports 3k. */
  lemma {:induction false} MaxAfterDeletions(underlying: seq<Segment>, draws: seq<nat>)
    requires |draws| <= |underlying|
    ensures |DeleteMany(underlying, draws)| <= |underlying|
    ensures MaxEvaluate(underlying, DeleteMany(underlying, draws)) == 3 * |draws|
  {
    DeleteManyLength(underlying, draws);
  }

  /** MaxOnsetSonSeqPr: Max, Onset and SonSeqPr on the same surface, summed;
      defined where all three are. */
  function MaxOnsetSonSeqPrEvaluate(underlying: seq<Segment>, surface: seq<Segment>): (r: nat)
    requires |surface| <= |underlying|
    requires Count(surface, Onset) <= Count(surface, Nucleus)
    requires NonEmptyTexts(surface)
    ensures r >= MaxEvaluate(underlying, surface)
    ensures r >= OnsetEvaluate(surface) && r >= SonSeqPrEvaluate(surface)
    ensures r == 0 <==>
      |surface| == |underlying| && Count(surface, Onset) == Count(surface, Nucleus)
      && SonSeqPrEvaluate(surface) == 0
  {
    MaxEvaluate(underlying, surface) + OnsetEvaluate(surface) + SonSeqPrEvaluate(surface)
  }

  /** The constraint kinds; the faithfulness kinds carry their underlying form. */
  datatype ConstraintKind =
    | OnsetKind
    | SonSeqPrKind
    | SyllabifyKind
    | MaxKind(underlying: seq<Segment>)
    | MaxOnsetSonSeqPrKind(underlying: seq<Segment>)

  /** A constraint with its rank. */
  datatype RankedConstraint = RankedConstraint(rank: nat, constraint: ConstraintKind)

  /** Where a constraint of kind `k` can be evaluated on `surface`. */
  predicate Defined(k: ConstraintKind, surface: seq<Segment>): (b: bool)
    ensures k.SyllabifyKind? ==> b
    ensures surface == [] ==> b
  {
    match k
    case OnsetKind => Count(surface, Onset) <= Count(surface, Nucleus)
    case SonSeqPrKind => NonEmptyTexts(surface)
    case SyllabifyKind => true
    case MaxKind(u) => |surface| <= |u|
    case MaxOnsetSonSeqPrKind(u) =>
      |surface| <= |u| && Count(surface, Onset) <= Count(surface, Nucleus) && NonEmptyTexts(surface)
  }

  /** Evaluate a constraint of any kind on a surface form. */
  function Evaluate(k: ConstraintKind, surface: seq<Segment>): (r: nat)
    requires Defined(k, surface)
    ensures k.OnsetKind? ==> r <= Count(surface, Nucleus)
    ensures k.SonSeqPrKind? ==> r <= 3 * |surface|
    ensures k.SyllabifyKind? ==> r <= |surface|
    ensures k.MaxKind? ==> r % 3 == 0
    ensures k.MaxOnsetSonSeqPrKind? ==>
      r >= MaxEvaluate(k.underlying, surface) && r >= OnsetEvaluate(surface)
      && r >= SonSeqPrEvaluate(surface)
  {
    match k
    case OnsetKind => OnsetEvaluate(surface)
    case SonSeqPrKind => SonSeqPrEvaluate(surface)
    case SyllabifyKind => SyllabifyEvaluate(surface)
    case MaxKind(u) => MaxEvaluate(u, surface)
    case MaxOnsetSonSeqPrKind(u) => MaxOnsetSonSeqPrEvaluate(u, surface)
  }

  /** Every constraint can be evaluated on a word built from non-empty grapheme
      clusters, against an underlying form at least as long: none of the
      unsigned subtractions can underflow there and SonSeqPr always finds a
      first character. */
  lemma DefinedOnSyllabifiedWord(k: ConstraintKind, graphemes: seq<string>)
    requires forall i :: 0 <= i < |graphemes| ==> |graphemes[i]| > 0
    requires k.MaxKind? || k.MaxOnsetSonSeqPrKind? ==> |graphemes| <= |k.underlying|
    ensures Defined(k, Syllabify(Untagged(graphemes)))
  {
    var s := Syllabify(Untagged(graphemes));
    SyllabifyOnsetsPrecedeNuclei(Untagged(graphemes));
    OnsetsAtMostNuclei(s);
  }
}
