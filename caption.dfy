/**
 * The social-caption extractor of image_analyzer.py: finds the caption label
 * in the model's free-text reply by trying fixed literal markers in order,
 * takes the text after the first marker found and cleans it up.
 */
module Caption {
  import opened Wrappers
  import opened PyStr

  const BoldMarker: string := "**Instagram Reel Caption**:"
  const PlainMarker: string := "Instagram Reel Caption:"
  /** The section number prefixed to a label: "3. **Instagram Reel Caption**:" and "3. Instagram Reel Caption:". */
  const SectionNumber: string := "3. "
  const NumberedBoldMarker: string := SectionNumber + BoldMarker
  const NumberedPlainMarker: string := SectionNumber + PlainMarker

  /** The markers in the order they are tried: the numbered bold label, then the three variations. */
  const Markers: seq<string> := [NumberedBoldMarker, BoldMarker, PlainMarker, NumberedPlainMarker]

  const ParagraphBreak: string := "\n\n"

  /** The index of the first marker at or after `k` that occurs in `content`. */
  function FirstMarker(content: string, k: nat): (r: Option<nat>)
    ensures r.Some? ==> k <= r.value < |Markers| && Contains(content, Markers[r.value])
    ensures forall j :: k <= j < |Markers| && (r.None? || j < r.value) ==> !Contains(content, Markers[j])
    decreases |Markers| - k
  {
    if k >= |Markers| then None
    else if Contains(content, Markers[k]) then Some(k)
    else FirstMarker(content, k + 1)
  }

  /**
   * The clean-up of the text after the marker: strip, delete every `*` and
   * every `"`, strip, keep the first paragraph, strip.
   */
  function Clean(t: string): string {
    Strip(Before(Strip(RemoveChar(RemoveChar(Strip(t), '*'), '"')), ParagraphBreak))
  }

  /** What a returned caption looks like: no markdown emphasis, no quotes, one paragraph, stripped. */
  predicate IsCleanCaption(c: string) {
    '*' !in c && '"' !in c && !Contains(c, ParagraphBreak) &&
    (c == [] || (!IsSpace(c[0]) && !IsSpace(c[|c| - 1])))
  }

  /**
   * `extract_insta_caption(content)`: `None` exactly when the reply holds
   * neither the bold nor the plain label; otherwise a clean caption.
   */
  function ExtractInstaCaption(content: string): (r: Option<string>)
    ensures r.None? <==> !Contains(content, BoldMarker) && !Contains(content, PlainMarker)
    ensures r.Some? ==> IsCleanCaption(r.value)
  {
    NumberedMarkersContainPlainOnes(content);
    match FirstMarker(content, 0)
    case None => None
    case Some(k) =>
      var c := Clean(AfterFirst(content, Markers[k]));
      CleanIsClean(AfterFirst(content, Markers[k]));
      Some(c)
  }

  /**
   * Each numbered label contains its un-numbered form, so a reply that holds
   * a numbered label also holds the un-numbered one.
   */
  lemma NumberedMarkersContainPlainOnes(content: string)
    ensures Contains(content, NumberedBoldMarker) ==> Contains(content, BoldMarker)
    ensures Contains(content, NumberedPlainMarker) ==> Contains(content, PlainMarker)
  {
    if Contains(content, NumberedBoldMarker) {
      var j := IndexOf(content, NumberedBoldMarker);
      assert content[j + 3..j + 3 + |BoldMarker|] == content[j..j + |NumberedBoldMarker|][3..];
      OccurrenceContains(content, BoldMarker, j + 3);
    }
    if Contains(content, NumberedPlainMarker) {
      var j := IndexOf(content, NumberedPlainMarker);
      assert content[j + 3..j + 3 + |PlainMarker|] == content[j..j + |NumberedPlainMarker|][3..];
      OccurrenceContains(content, PlainMarker, j + 3);
    }
  }

  /** The numbered plain label is never the winning marker: the plain label it contains is tried first. */
  lemma NumberedPlainNeverWins(content: string)
    ensures FirstMarker(content, 0) != Some(3)
  {
    NumberedMarkersContainPlainOnes(content);
  }

  /**
   * Marker priority: when the `k`-th marker is the first one present, the
   * caption is the cleaned text that follows its first occurrence, up to its
   * next occurrence or the end of the reply.
   */
  lemma MarkerPriority(content: string, k: nat)
    requires k < |Markers| && Contains(content, Markers[k])
    requires forall j :: 0 <= j < k ==> !Contains(content, Markers[j])
    ensures ExtractInstaCaption(content) == Some(Clean(AfterFirst(content, Markers[k])))
  {
    var w := FirstMarker(content, 0);
    assert w.Some? && w.value == k;
  }

  /** Deleting other characters keeps `c` absent. */
  lemma RemoveKeepsAbsent(s: string, c: char, d: char)
    requires c != d && c !in s
    ensures c !in RemoveChar(s, d)
  {
    assert multiset(RemoveChar(s, d))[c] == multiset(s)[c] == 0;
  }

  /** A slice of a text that lacks a character or a separator lacks it too. */
  lemma SliceKeepsAbsent(s: string, a: nat, b: nat, sep: string)
    requires a <= b <= |s|
    ensures forall c :: c !in s ==> c !in s[a..b]
    ensures !Contains(s, sep) ==> !Contains(s[a..b], sep)
  {
    if !Contains(s, sep) {
      NoOccurrenceInSlice(s, sep, a, b);
    }
  }

  /** Every caption the clean-up produces is clean. */
  lemma CleanIsClean(t: string)
    ensures IsCleanCaption(Clean(t))
  {
    var x1 := Strip(t);
    var x2 := RemoveChar(x1, '*');
    var x3 := RemoveChar(x2, '"');
    RemoveKeepsAbsent(x2, '*', '"');
    var x4 := Strip(x3);
    SliceKeepsAbsent(x3, StripStart(x3), StripEnd(x3), ParagraphBreak);
    var x5 := Before(x4, ParagraphBreak);
    SliceKeepsAbsent(x4, 0, |x5|, ParagraphBreak);
    var x6 := Strip(x5);
    SliceKeepsAbsent(x5, StripStart(x5), StripEnd(x5), ParagraphBreak);
  }

  /**
   * A reply in which only whitespace follows the winning label, up to the
   * label's next occurrence or the end, gives the empty caption, not `None`.
   */
  lemma NothingAfterLabel(content: string, k: nat)
    requires FirstMarker(content, 0) == Some(k)
    requires var t := AfterFirst(content, Markers[k]); AllSpace(t, 0, |t|)
    ensures ExtractInstaCaption(content) == Some("")
  {
    assert Strip(AfterFirst(content, Markers[k])) == [];
  }
}
