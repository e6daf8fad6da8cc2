/** Segments of a Yoruba word: one grapheme cluster and the syllable position it
    has been given, plus the rendering of a form back to text. */
module Segments {

  /** Syllable position of a segment; `None` is the state before syllabification. */
  datatype SegmentType = Onset | Nucleus | Coda | None

  /** One grapheme cluster (`text`, the source's `char`) and its syllable position. */
  datatype Segment = Segment(text: string, charType: SegmentType)

  /** The seven vowel graphemes of the grammar. Membership is exact string equality,
      so a vowel carrying a combining accent is not in this list. */
  const VOWELS: seq<string> := ["o", "ɛ", "ɔ", "i", "u", "a", "e"]

  /** The vowel test; every vowel is a single code point. */
  predicate IsVowel(text: string): (b: bool)
    ensures b ==> |text| == 1
  {
    text in VOWELS
  }

  /** Copy of a segment with its syllable position replaced. */
  function MorphType(seg: Segment, segType: SegmentType): (r: Segment)
    ensures r.text == seg.text && r.charType == segType
    ensures seg.charType == segType ==> r == seg
  {
    seg.(charType := segType)
  }

  /** Number of segments of `form` whose position is `segType`. */
  function Count(form: seq<Segment>, segType: SegmentType): (n: nat)
    ensures n <= |form|
    ensures n == 0 <==> forall i :: 0 <= i < |form| ==> form[i].charType != segType
  {
    if form == [] then 0
    else (if form[0].charType == segType then 1 else 0) + Count(form[1..], segType)
  }

  lemma {:induction false} CountAppend(a: seq<Segment>, b: seq<Segment>, segType: SegmentType)
    ensures Count(a + b, segType) == Count(a, segType) + Count(b, segType)
  {
    if a == [] {
      assert a + b == b;
    } else {
      assert (a + b)[1..] == a[1..] + b;
      CountAppend(a[1..], b, segType);
    }
  }

  /** True when no segment has been given a syllable position yet. */
  predicate Unassigned(form: seq<Segment>) {
    forall i :: 0 <= i < |form| ==> form[i].charType == None
  }

  /** True when two forms carry the same grapheme texts in the same order. */
  predicate SameTexts(a: seq<Segment>, b: seq<Segment>) {
    |a| == |b| && forall i :: 0 <= i < |a| ==> a[i].text == b[i].text
  }

  /** The fresh, untagged form built from a sequence of grapheme clusters. */
  function Untagged(graphemes: seq<string>): (form: seq<Segment>)
    ensures |form| == |graphemes| && Unassigned(form)
    ensures forall i :: 0 <= i < |form| ==> form[i].text == graphemes[i]
  {
    if graphemes == [] then []
    else [Segment(graphemes[0], None)] + Untagged(graphemes[1..])
  }

  /** Concatenation of a sequence of strings. */
  function Concat(parts: seq<string>): string {
    if parts == [] then "" else parts[0] + Concat(parts[1..])
  }

  /** The text of a form: its segment texts concatenated in order. */
  function Render(form: seq<Segment>): (s: string)
    ensures form != [] ==> form[0].text <= s
    ensures (forall i :: 0 <= i < |form| ==> |form[i].text| > 0) ==> |s| >= |form|
  {
    if form == [] then "" else form[0].text + Render(form[1..])
  }

  lemma {:induction false} RenderAppend(a: seq<Segment>, b: seq<Segment>)
    ensures Render(a + b) == Render(a) + Render(b)
  {
    if a == [] {
      assert a + b == b;
    } else {
      assert (a + b)[1..] == a[1..] + b;
      RenderAppend(a[1..], b);
    }
  }

  /** Rendering reads only the texts: forms that differ only in syllable positions
      render identically. */
  lemma {:induction false} RenderSameTexts(a: seq<Segment>, b: seq<Segment>)
    requires SameTexts(a, b)
    ensures Render(a) == Render(b)
  {
    if a != [] {
      RenderSameTexts(a[1..], b[1..]);
    }
  }

  /** Rendering the untagged form gives back the concatenated grapheme clusters. */
  lemma {:induction false} RenderUntagged(graphemes: seq<string>)
    ensures Render(Untagged(graphemes)) == Concat(graphemes)
  {
    if graphemes != [] {
      RenderUntagged(graphemes[1..]);
    }
  }
}
