/** The three-pass syllabifier: nuclei from the vowel list, onsets right-to-left
    before a nucleus, and codas for everything still unplaced. */
module Syllabifier {
  import opened Segments
  import opened Utils

  /** First pass: a segment whose text is one of VOWELS becomes a nucleus;
      every other segment is kept as it is. */
  function MarkVowels(candidate: seq<Segment>): (r: seq<Segment>)
    ensures SameTexts(r, candidate)
    ensures forall i :: 0 <= i < |r| ==>
      r[i].charType == (if IsVowel(candidate[i].text) then Nucleus else candidate[i].charType)
  {
    if candidate == [] then []
    else
      var seg := candidate[0];
      [if IsVowel(seg.text) then MorphType(seg, Nucleus) else seg] + MarkVowels(candidate[1..])
  }

  /** The onset rule at one position: an unplaced segment right before a nucleus
      becomes an onset; anything else keeps its position. */
  function OnsetRule(candidate: seq<Segment>, i: nat): Segment
    requires i < |candidate|
  {
    var seg := candidate[i];
    if seg.charType == None && i + 1 < |candidate| && candidate[i + 1].charType == Nucleus
    then MorphType(seg, Onset)
    else seg
  }

  /** One step of the right-to-left fold: `prev` is the resulting position of the
      segment to the right. */
  function OnsetStep(prev: SegmentType, seg: Segment): (r: Segment)
    ensures r.text == seg.text
    ensures r.charType == Onset <==> (prev == Nucleus && seg.charType == None) || seg.charType == Onset
    ensures r.charType != Onset ==> r == seg
  {
    match (prev, seg.charType)
    case (Nucleus, None) => MorphType(seg, Onset)
    case _ => seg
  }

  /** Second pass, as the fold from the right: each segment is stepped with the
      resulting position of its right neighbour (`None` at the word end). */
  function MarkOnsets(candidate: seq<Segment>): (r: seq<Segment>)
    ensures |r| == |candidate|
    ensures forall i :: 0 <= i < |r| ==> r[i] == OnsetRule(candidate, i)
  {
    if candidate == [] then []
    else
      var rest := MarkOnsets(candidate[1..]);
      var prev := if rest == [] then None else rest[0].charType;
      [OnsetStep(prev, candidate[0])] + rest
  }

  /** The second pass as the source runs it: walk the segments from the right,
      push each result onto an accumulating vector, then reverse that vector. */
  method MarkOnsetsFold(candidate: seq<Segment>) returns (r: seq<Segment>)
    ensures r == MarkOnsets(candidate)
  {
    var prev := None;
    var segs := new Vec<Segment>();
    var i := |candidate|;
    while i > 0
      invariant 0 <= i <= |candidate|
      invariant fresh(segs)
      invariant |segs.elems| == |candidate| - i
      invariant forall k :: 0 <= k < |segs.elems| ==>
        segs.elems[k] == OnsetRule(candidate, |candidate| - 1 - k)
      invariant prev == if i == |candidate| then None else OnsetRule(candidate, i).charType
    {
      i := i - 1;
      var seg := candidate[i];
      match (prev, seg.charType)
      case (Nucleus, None) =>
        prev := Onset;
        segs := segs.PushRet(MorphType(seg, Onset));
      case _ =>
        prev := seg.charType;
        segs := segs.PushRet(seg);
    }
    segs.Reverse();
    r := segs.elems;
    assert forall k :: 0 <= k < |r| ==> r[k] == MarkOnsets(candidate)[k];
  }

  /** Third pass: every segment still unplaced becomes a coda, wherever it sits. */
  function MarkCodas(candidate: seq<Segment>): (r: seq<Segment>)
    ensures SameTexts(r, candidate)
    ensures forall i :: 0 <= i < |r| ==>
      r[i].charType == (if candidate[i].charType == None then Coda else candidate[i].charType)
  {
    if candidate == [] then []
    else
      var seg := candidate[0];
      [if seg.charType == None then MorphType(seg, Coda) else seg] + MarkCodas(candidate[1..])
  }

  /** Every onset is immediately followed by a nucleus. */
  predicate OnsetsPrecedeNuclei(form: seq<Segment>) {
    forall i :: 0 <= i < |form| && form[i].charType == Onset ==>
      i + 1 < |form| && form[i + 1].charType == Nucleus
  }

  /** The three passes in order. The result keeps the texts, places every
      segment, and makes every vowel a nucleus. */
  function Syllabify(candidate: seq<Segment>): (r: seq<Segment>)
    ensures SameTexts(r, candidate)
    ensures forall i :: 0 <= i < |r| ==> r[i].charType != None
    ensures forall i :: 0 <= i < |r| && IsVowel(r[i].text) ==> r[i].charType == Nucleus
  {
    MarkCodas(MarkOnsets(MarkVowels(candidate)))
  }

  /** On an untagged form the position of every segment is determined by the
      vowel test on it and on its right neighbour alone. */
  lemma SyllabifyUntaggedRoles(candidate: seq<Segment>, i: nat)
    requires Unassigned(candidate)
    requires i < |candidate|
    ensures Syllabify(candidate)[i].charType ==
      if IsVowel(candidate[i].text) then Nucleus
      else if i + 1 < |candidate| && IsVowel(candidate[i + 1].text) then Onset
      else Coda
  {
    var v := MarkVowels(candidate);
    var o := MarkOnsets(v);
    assert o[i] == OnsetRule(v, i);
  }

  /** After syllabifying an untagged form, every onset precedes a nucleus. */
  lemma SyllabifyOnsetsPrecedeNuclei(candidate: seq<Segment>)
    requires Unassigned(candidate)
    ensures OnsetsPrecedeNuclei(Syllabify(candidate))
  {
    var r := Syllabify(candidate);
    forall i | 0 <= i < |r| && r[i].charType == Onset
      ensures i + 1 < |r| && r[i + 1].charType == Nucleus
    {
      SyllabifyUntaggedRoles(candidate, i);
    }
  }

  /** A form in which every onset precedes a nucleus has no more onsets than nuclei. */
  lemma {:induction false} OnsetsAtMostNuclei(form: seq<Segment>)
    requires OnsetsPrecedeNuclei(form)
    ensures Count(form, Onset) <= Count(form, Nucleus)
  {
    if form == [] {
    } else if form[0].charType == Onset {
      var rest := form[2..];
      assert form[1..][1..] == rest;
      assert OnsetsPrecedeNuclei(rest) by {
        forall i | 0 <= i < |rest| && rest[i].charType == Onset
          ensures i + 1 < |rest| && rest[i + 1].charType == Nucleus
        {
          assert form[i + 2] == rest[i];
        }
      }
      OnsetsAtMostNuclei(rest);
    } else {
      var rest := form[1..];
      assert OnsetsPrecedeNuclei(rest) by {
        forall i | 0 <= i < |rest| && rest[i].charType == Onset
          ensures i + 1 < |rest| && rest[i + 1].charType == Nucleus
        {
          assert form[i + 1] == rest[i];
        }
      }
      OnsetsAtMostNuclei(rest);
    }
  }

  /** Syllabification is idempotent on every input. */
  lemma SyllabifyIdempotent(candidate: seq<Segment>)
    ensures Syllabify(Syllabify(candidate)) == Syllabify(candidate)
  {
    var t := Syllabify(candidate);
    var v := MarkVowels(t);
    assert v == t by {
      forall i | 0 <= i < |t| ensures v[i] == t[i] {
        assert v[i].text == t[i].text && v[i].charType == t[i].charType;
      }
    }
    var o := MarkOnsets(v);
    assert o == t by {
      forall i | 0 <= i < |t| ensures o[i] == t[i] {
        assert o[i] == OnsetRule(v, i);
      }
    }
    var c := MarkCodas(o);
    assert c == t by {
      forall i | 0 <= i < |t| ensures c[i] == t[i] {
        assert c[i].text == t[i].text && c[i].charType == t[i].charType;
      }
    }
  }
}
