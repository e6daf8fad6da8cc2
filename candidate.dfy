/** A syllabified candidate form: built from grapheme clusters, shortened one
    segment at a time by deletion, and scored by the early form of the Onset
    constraint that sits beside it. */
module Candidates {
  import opened Segments
  import opened Syllabifier

  /** `form` with the segment at index `i` taken out. */
  function RemoveAt(form: seq<Segment>, i: nat): (r: seq<Segment>)
    requires i < |form|
    ensures |r| == |form| - 1
    ensures forall k :: 0 <= k < |r| ==> r[k] == if k < i then form[k] else form[k + 1]
  {
    form[..i] + form[i + 1..]
  }

  /** Deleting at `i` removes exactly the i-th grapheme from the rendered text. */
  lemma RenderRemoveAt(form: seq<Segment>, i: nat)
    requires i < |form|
    ensures Render(form) == Render(form[..i]) + form[i].text + Render(form[i + 1..])
    ensures Render(RemoveAt(form, i)) == Render(form[..i]) + Render(form[i + 1..])
  {
    var pre, tail, post := form[..i], form[i..], form[i + 1..];
    assert form == pre + tail;
    assert tail[1..] == post;
    RenderAppend(pre, tail);
    assert RemoveAt(form, i) == pre + post;
    RenderAppend(pre, post);
  }

  /** Removing a segment lowers the count of its own position by one and
      leaves every other count as it was. */
  lemma CountRemoveAt(form: seq<Segment>, i: nat, segType: SegmentType)
    requires i < |form|
    ensures Count(form, segType)
      == Count(RemoveAt(form, i), segType) + (if form[i].charType == segType then 1 else 0)
  {
    var pre, tail, post := form[..i], form[i..], form[i + 1..];
    assert form == pre + tail;
    assert tail[1..] == post;
    CountAppend(pre, tail, segType);
    assert RemoveAt(form, i) == pre + post;
    CountAppend(pre, post, segType);
  }

  /** One deletion as the candidate performs it: nothing on an empty form,
      otherwise the segment at an index drawn from `0..|form|`. The draw is
      passed in; any value stands for the index `draw % |form|`. */
  function DeleteOnce(form: seq<Segment>, draw: nat): (r: seq<Segment>)
    ensures form == [] ==> r == []
    ensures form != [] ==> exists i :: 0 <= i < |form| && r == RemoveAt(form, i)
  {
    if form == [] then [] else RemoveAt(form, draw % |form|)
  }

  /** A chain of deletions, one draw per call. */
  function DeleteMany(form: seq<Segment>, draws: seq<nat>): (r: seq<Segment>)
    ensures |r| <= |form|
    ensures draws == [] ==> r == form
    decreases |draws|
  {
    if draws == [] then form
    else DeleteMany(DeleteOnce(form, draws[0]), draws[1..])
  }

  /** Each deletion shortens a non-empty form by one; deleting at least as many
      times as there are segments leaves the empty form. */
  lemma {:induction false} DeleteManyLength(form: seq<Segment>, draws: seq<nat>)
    ensures |DeleteMany(form, draws)| == if |draws| <= |form| then |form| - |draws| else 0
    ensures |form| <= |draws| ==> DeleteMany(form, draws) == []
    decreases |draws|
  {
    if draws != [] {
      DeleteManyLength(DeleteOnce(form, draws[0]), draws[1..]);
    }
  }

  /** Deletion never adds a text: every segment of the result is a segment of
      the form it came from. */
  lemma {:induction false} DeleteManyKeepsSegments(form: seq<Segment>, draws: seq<nat>)
    ensures forall s :: s in DeleteMany(form, draws) ==> s in form
    decreases |draws|
  {
    if draws != [] {
      var once := DeleteOnce(form, draws[0]);
      assert forall s :: s in once ==> s in form by {
        if form != [] {
          var i := draws[0] % |form|;
          forall s | s in once ensures s in form {
            var k :| 0 <= k < |once| && once[k] == s;
            assert s == if k < i then form[k] else form[k + 1];
          }
        }
      }
      DeleteManyKeepsSegments(once, draws[1..]);
    }
  }

  /** The candidate a tableau works on: its syllabified form. The random
      number generator the source keeps beside the form is not part of this
      model; each deletion takes its draw as a parameter. */
  class SyllabifiedCandidate {
    var form: seq<Segment>

    /** Build the candidate from already segmented grapheme clusters. */
    constructor (graphemes: seq<string>)
      ensures form == Syllabify(Untagged(graphemes))
    {
      form := Syllabify(Untagged(graphemes));
    }

    /** Remove one segment in place, or nothing when the form is empty, and
        hand back this candidate. */
    method Delete(draw: nat) returns (self: SyllabifiedCandidate)
      modifies this
      ensures self == this
      ensures old(form) == [] ==> form == []
      ensures old(form) != [] ==> form == RemoveAt(old(form), draw % |old(form)|)
    {
      if form != [] {
        form := RemoveAt(form, draw % |form|);
      }
      self := this;
    }
  }

  /** The Onset constraint as first written beside the candidate: onsets minus
      nuclei in unsigned arithmetic, so it is defined only when there are at
      least as many onsets as nuclei. */
  function OnsetEvaluateAsWritten(surface: seq<Segment>): (r: nat)
    requires Count(surface, Nucleus) <= Count(surface, Onset)
    ensures r <= Count(surface, Onset)
    ensures r == 0 <==> Count(surface, Onset) == Count(surface, Nucleus)
  {
    Count(surface, Onset) - Count(surface, Nucleus)
  }

  /** On a syllabified form that early Onset constraint can be evaluated only
      when onsets and nuclei balance, and then it always reports zero. */
  lemma OnsetAsWrittenOnlyZero(graphemes: seq<string>)
    ensures var s := Syllabify(Untagged(graphemes));
      Count(s, Nucleus) <= Count(s, Onset) ==> OnsetEvaluateAsWritten(s) == 0
  {
    var s := Syllabify(Untagged(graphemes));
    SyllabifyOnsetsPrecedeNuclei(Untagged(graphemes));
    OnsetsAtMostNuclei(s);
  }

  /** The single-vowel word "a" has one nucleus and no onset, so that early
      Onset constraint would subtract past zero on it. */
  lemma OnsetAsWrittenUnderflows()
    ensures var s := Syllabify(Untagged(["a"]));
      Count(s, Onset) == 0 && Count(s, Nucleus) == 1
    ensures var s := Syllabify(Untagged(["a"]));
      !(Count(s, Nucleus) <= Count(s, Onset))
  {
    var s := Syllabify(Untagged(["a"]));
    assert IsVowel("a");
    assert s[0].charType == Nucleus;
    assert s[1..] == [];
  }

  /** Deletion keeps the positions computed before it. Removing the vowel of
      "ta" leaves an onset with no nucleus after it, so the form then has more
      onsets than nuclei. */
  lemma DeleteKeepsStaleOnset()
    ensures var s := DeleteOnce(Syllabify(Untagged(["t", "a"])), 1);
      s == [Segment("t", Onset)] && !OnsetsPrecedeNuclei(s)
      && Count(s, Onset) == 1 && Count(s, Nucleus) == 0
  {
    var u := Untagged(["t", "a"]);
    var t := Syllabify(u);
    SyllabifyUntaggedRoles(u, 0);
    assert IsVowel("a");
    assert t[0] == Segment("t", Onset);
    var s := DeleteOnce(t, 1);
    assert s == [t[0]];
  }

  /** The test word "owókíowó" as its grapheme clusters: each accented vowel is
      a base vowel followed by the combining acute accent U+0301. */
  const OWOKIOWO: seq<string> :=
    ["o", "w", "o\U{0301}", "k", "i\U{0301}", "o", "w", "o\U{0301}"]

  /** Only the two unaccented "o" are vowels by exact match, so the accented
      "í" before the second "o" is taken as its onset and "ó" becomes a coda. */
  lemma OwokiowoPositions(word: seq<Segment>)
    requires Unassigned(word) && |word| == 8
    requires forall i :: 0 <= i < 8 ==> word[i].text == OWOKIOWO[i]
    ensures forall i :: 0 <= i < 8 ==>
      Syllabify(word)[i].charType == [Nucleus, Coda, Coda, Coda, Onset, Nucleus, Coda, Coda][i]
  {
    var vowel := [true, false, false, false, false, true, false, false];
    assert forall i :: 0 <= i < 8 ==> IsVowel(OWOKIOWO[i]) == vowel[i];
    PositionsFromTexts(word, vowel);
  }

  /** Positions of a syllabified untagged form from the vowel test on each text. */
  lemma PositionsFromTexts(u: seq<Segment>, vowel: seq<bool>)
    requires Unassigned(u) && |vowel| == |u|
    requires forall i :: 0 <= i < |u| ==> vowel[i] == IsVowel(u[i].text)
    ensures forall i :: 0 <= i < |u| ==>
      Syllabify(u)[i].charType ==
        if vowel[i] then Nucleus else if i + 1 < |u| && vowel[i + 1] then Onset else Coda
  {
    forall i | 0 <= i < |u|
      ensures Syllabify(u)[i].charType ==
        if vowel[i] then Nucleus else if i + 1 < |u| && vowel[i + 1] then Onset else Coda
    {
      SyllabifyUntaggedRoles(u, i);
    }
  }
}
