/**
 * The reel assembly of movie_maker.py: the sidecar's `images` list sorted
 * in place by capture time (the date string, or "" when there is none), the
 * per-entry clip loop that skips entries whose download or rendering raises,
 * the caption-overlay branch, and the guard that writes a video only when at
 * least one clip exists.
 *
 * Whether an entry's processing raises is the parameter `builds`; the clip
 * itself is reduced to the image URL and the overlay text.
 */
module Reel {
  import opened Wrappers
  import opened PyStr
  import opened Metadata
  import opened Analyzer

  /** The sort key `x.get('metadata', {}).get('date_time') or ''`. */
  function SortKey(e: SidecarRecord): string {
    match e.metadata
    case NoMetadata => ""
    case Extracted(d, _, _) => if d.Some? then d.value else ""
  }

  /** The key is empty exactly for an entry without a truthy date, and is that date otherwise. */
  lemma SortKeyMeaning(e: SidecarRecord)
    ensures SortKey(e) == "" <==> !HasDate(e.metadata)
    ensures HasDate(e.metadata) ==> SortKey(e) == e.metadata.dateTime.value
  {
  }

  /** `SortKey(e) <= SortKey(f)` on Python strings. */
  predicate KeyLe(e: SidecarRecord, f: SidecarRecord) {
    !StrLt(SortKey(f), SortKey(e))
  }

  /** Non-decreasing by key, for every pair of positions. */
  predicate Sorted(s: seq<SidecarRecord>) {
    forall i, j :: 0 <= i < j < |s| ==> KeyLe(s[i], s[j])
  }

  /** Inserts `x` before the first entry whose key is not smaller than its own. */
  function Insert(x: SidecarRecord, s: seq<SidecarRecord>): seq<SidecarRecord> {
    if s == [] || !StrLt(SortKey(s[0]), SortKey(x)) then [x] + s
    else [s[0]] + Insert(x, s[1..])
  }

  /**
   * The list that `images.sort(key=...)` leaves: each entry inserted, from
   * the last to the first, in front of the entries with an equal key.
   */
  function StableSort(s: seq<SidecarRecord>): seq<SidecarRecord> {
    if s == [] then [] else Insert(s[0], StableSort(s[1..]))
  }

  /** The entries of `s` with key `k`, in order. */
  function WithKey(s: seq<SidecarRecord>, k: string): seq<SidecarRecord> {
    if s == [] then []
    else (if SortKey(s[0]) == k then [s[0]] else []) + WithKey(s[1..], k)
  }

  lemma KeyLeTotal(e: SidecarRecord, f: SidecarRecord)
    ensures KeyLe(e, f) || KeyLe(f, e)
  {
    StrLtTotal(SortKey(e), SortKey(f));
    if StrLt(SortKey(e), SortKey(f)) {
      StrLtAsymmetric(SortKey(e), SortKey(f));
    } else if SortKey(e) == SortKey(f) {
      StrLtIrreflexive(SortKey(e));
    }
  }

  lemma KeyLeTransitive(e: SidecarRecord, f: SidecarRecord, g: SidecarRecord)
    requires KeyLe(e, f) && KeyLe(f, g)
    ensures KeyLe(e, g)
  {
    var a, b, c := SortKey(e), SortKey(f), SortKey(g);
    StrLtTotal(a, b);
    StrLtTotal(b, c);
    if StrLt(a, b) && StrLt(b, c) {
      StrLtTransitive(a, b, c);
      StrLtAsymmetric(a, c);
    } else if StrLt(a, b) {
      StrLtAsymmetric(a, b);
    } else if StrLt(b, c) {
      StrLtAsymmetric(b, c);
    } else {
      StrLtIrreflexive(a);
    }
  }

  /** Insertion adds `x` and keeps every other entry. */
  lemma {:induction false} InsertPermutation(x: SidecarRecord, s: seq<SidecarRecord>)
    ensures multiset(Insert(x, s)) == multiset(s) + multiset{x}
  {
    if s != [] && StrLt(SortKey(s[0]), SortKey(x)) {
      InsertPermutation(x, s[1..]);
      assert s == [s[0]] + s[1..];
    }
  }

  /** `x` in front of a sorted list whose first key is not smaller than its own: still sorted. */
  lemma SortedFront(x: SidecarRecord, s: seq<SidecarRecord>)
    requires Sorted(s) && (s == [] || KeyLe(x, s[0]))
    ensures Sorted([x] + s)
  {
    var r := [x] + s;
    forall i, j | 0 <= i < j < |r|
      ensures KeyLe(r[i], r[j])
    {
      if i == 0 && j > 1 {
        KeyLeTransitive(x, s[0], s[j - 1]);
      }
    }
  }

  /** An entry in front of a sorted list of entries none of which has a smaller key: still sorted. */
  lemma SortedCons(e: SidecarRecord, r: seq<SidecarRecord>)
    requires Sorted(r) && forall j :: 0 <= j < |r| ==> KeyLe(e, r[j])
    ensures Sorted([e] + r)
  {
  }

  /** Inserting into a sorted list keeps it sorted. */
  lemma {:induction false} InsertSorted(x: SidecarRecord, s: seq<SidecarRecord>)
    requires Sorted(s)
    ensures Sorted(Insert(x, s))
  {
    if s == [] || !StrLt(SortKey(s[0]), SortKey(x)) {
      SortedFront(x, s);
    } else {
      var t := s[1..];
      InsertSorted(x, t);
      InsertPermutation(x, t);
      var rt := Insert(x, t);
      StrLtAsymmetric(SortKey(s[0]), SortKey(x));
      forall j | 0 <= j < |rt|
        ensures KeyLe(s[0], rt[j])
      {
        assert rt[j] in multiset(rt);
        if rt[j] != x {
          assert rt[j] in multiset(t);
          var m :| 0 <= m < |t| && t[m] == rt[j];
          assert s[m + 1] == rt[j];
        }
      }
      SortedCons(s[0], rt);
    }
  }

  /** The sort keeps every entry, as many times as it occurs. */
  lemma {:induction false} StableSortPermutation(s: seq<SidecarRecord>)
    ensures multiset(StableSort(s)) == multiset(s)
  {
    if s != [] {
      StableSortPermutation(s[1..]);
      InsertPermutation(s[0], StableSort(s[1..]));
      assert s == [s[0]] + s[1..];
    }
  }

  /** The sorted list is non-decreasing by key. */
  lemma {:induction false} StableSortSorted(s: seq<SidecarRecord>)
    ensures Sorted(StableSort(s))
  {
    if s != [] {
      StableSortSorted(s[1..]);
      InsertSorted(s[0], StableSort(s[1..]));
    }
  }

  lemma WithKeyCons(e: SidecarRecord, r: seq<SidecarRecord>, k: string)
    ensures WithKey([e] + r, k) == (if SortKey(e) == k then [e] else []) + WithKey(r, k)
  {
    assert ([e] + r)[1..] == r;
  }

  /** Inserting `x` puts it first among the entries with its key, and leaves the other keys alone. */
  lemma {:induction false} InsertWithKey(x: SidecarRecord, s: seq<SidecarRecord>, k: string)
    ensures WithKey(Insert(x, s), k) == (if SortKey(x) == k then [x] else []) + WithKey(s, k)
  {
    if s != [] && StrLt(SortKey(s[0]), SortKey(x)) {
      var t := s[1..];
      var r := Insert(x, t);
      assert Insert(x, s) == [s[0]] + r;
      assert s == [s[0]] + t;
      InsertWithKey(x, t, k);
      WithKeyCons(s[0], r, k);
      WithKeyCons(s[0], t, k);
      if SortKey(x) == k {
        StrLtIrreflexive(k);
        assert WithKey(Insert(x, s), k) == [x] + WithKey(t, k);
      } else {
        assert WithKey(Insert(x, s), k) == (if SortKey(s[0]) == k then [s[0]] else []) + WithKey(t, k);
      }
    } else {
      WithKeyCons(x, s, k);
    }
  }

  /** Stability: the entries with any one key keep their original order. */
  lemma {:induction false} StableSortStable(s: seq<SidecarRecord>, k: string)
    ensures WithKey(StableSort(s), k) == WithKey(s, k)
  {
    if s != [] {
      StableSortStable(s[1..], k);
      InsertWithKey(s[0], StableSort(s[1..]), k);
    }
  }

  lemma {:induction false} WithKeyMember(s: seq<SidecarRecord>, e: SidecarRecord)
    ensures e in s <==> e in WithKey(s, SortKey(e))
  {
    if s != [] {
      WithKeyMember(s[1..], e);
      assert s == [s[0]] + s[1..];
    }
  }

  /** Two sorted lists with the same per-key subsequences start with entries of the same key. */
  lemma SortedHeadKeys(t: seq<SidecarRecord>, u: seq<SidecarRecord>)
    requires Sorted(t) && Sorted(u) && t != [] && u != []
    requires forall k :: WithKey(t, k) == WithKey(u, k)
    ensures SortKey(t[0]) == SortKey(u[0])
  {
    var a, b := t[0], u[0];
    WithKeyMember(t, b);
    WithKeyMember(u, b);
    WithKeyMember(t, a);
    WithKeyMember(u, a);
    StrLtIrreflexive(SortKey(a));
    StrLtIrreflexive(SortKey(b));
    var i :| 0 <= i < |t| && t[i] == b;
    var j :| 0 <= j < |u| && u[j] == a;
    assert KeyLe(a, b) by {
      if i > 0 { assert KeyLe(t[0], t[i]); }
    }
    assert KeyLe(b, a) by {
      if j > 0 { assert KeyLe(u[0], u[j]); }
    }
    StrLtTotal(SortKey(a), SortKey(b));
  }

  /** Dropping a common first entry keeps the per-key subsequences equal. */
  lemma WithKeyTails(t: seq<SidecarRecord>, u: seq<SidecarRecord>, k: string)
    requires t != [] && u != [] && t[0] == u[0] && WithKey(t, k) == WithKey(u, k)
    ensures WithKey(t[1..], k) == WithKey(u[1..], k)
  {
    var p := if SortKey(t[0]) == k then [t[0]] else [];
    assert WithKey(t[1..], k) == (p + WithKey(t[1..], k))[|p|..];
    assert WithKey(u[1..], k) == (p + WithKey(u[1..], k))[|p|..];
  }

  /**
   * A sorted list is fixed by its per-key subsequences: two sorted lists
   * that agree on the entries of every key are equal. With the two lemmas
   * above, `StableSort(s)` is therefore the one list a stable sort of `s` by
   * this key can produce.
   */
  lemma {:induction false} SortedUnique(t: seq<SidecarRecord>, u: seq<SidecarRecord>)
    requires Sorted(t) && Sorted(u)
    requires forall k :: WithKey(t, k) == WithKey(u, k)
    ensures t == u
  {
    if t != [] && u != [] {
      SortedHeadKeys(t, u);
      var k := SortKey(t[0]);
      assert WithKey(t, k)[0] == t[0];
      assert WithKey(u, k)[0] == u[0];
      forall k' ensures WithKey(t[1..], k') == WithKey(u[1..], k')
      {
        WithKeyTails(t, u, k');
      }
      SortedUnique(t[1..], u[1..]);
      assert t == [t[0]] + t[1..] && u == [u[0]] + u[1..];
    } else if t != [] {
      WithKeyMember(t, t[0]);
    } else if u != [] {
      WithKeyMember(u, u[0]);
    }
  }

  /** In a sorted list every undated entry comes before every dated one. */
  lemma UndatedFirst(t: seq<SidecarRecord>, i: nat, j: nat)
    requires Sorted(t) && i < |t| && j < |t|
    requires SortKey(t[i]) == "" && SortKey(t[j]) != ""
    ensures i < j
  {
    EmptyIsLeast(SortKey(t[j]));
  }

  /**
   * Two entries, the dated one first in the sidecar: after the sort the
   * undated one (no metadata, a `None` date, or an empty date) comes first.
   */
  lemma UndatedBeforeDated(dated: SidecarRecord, undated: SidecarRecord)
    requires SortKey(dated) != "" && SortKey(undated) == ""
    ensures StableSort([dated, undated]) == [undated, dated]
  {
    EmptyIsLeast(SortKey(dated));
    assert [dated, undated][1..] == [undated];
    assert [undated][1..] == [];
    assert StableSort([undated]) == [undated];
    assert Insert(dated, [undated]) == [undated] + Insert(dated, []);
  }

  /**
   * Where insertion puts `x`: after the first `m` entries when all of them
   * have a smaller key and the next one, if any, does not.
   */
  lemma {:induction false} InsertAtStop(x: SidecarRecord, S: seq<SidecarRecord>, m: nat)
    requires m <= |S|
    requires forall k :: 0 <= k < m ==> StrLt(SortKey(S[k]), SortKey(x))
    requires m == |S| || !StrLt(SortKey(S[m]), SortKey(x))
    ensures Insert(x, S) == S[..m] + [x] + S[m..]
  {
    if m > 0 {
      InsertAtStop(x, S[1..], m - 1);
      assert S[..m] == [S[0]] + S[1..][..m - 1];
      assert S[m..] == S[1..][m - 1..];
    }
  }

  /** The array contents during one insertion: the untouched prefix, the entries already passed, `x`, the rest. */
  function Layout<T>(P: seq<T>, S: seq<T>, m: nat, x: T): seq<T>
    requires m <= |S|
  {
    P + S[..m] + [x] + S[m..]
  }

  /** Each position of the layout. */
  lemma LayoutAt<T>(P: seq<T>, S: seq<T>, m: nat, x: T)
    requires m <= |S|
    ensures var L := Layout(P, S, m, x);
      |L| == |P| + |S| + 1 &&
      forall k :: 0 <= k < |L| ==>
        L[k] == if k < |P| then P[k] else if k < |P| + m then S[k - |P|] else if k == |P| + m then x else S[k - |P| - 1]
  {
  }

  lemma LayoutFacts<T>(P: seq<T>, S: seq<T>, m: nat, x: T)
    requires m <= |S|
    ensures var L := Layout(P, S, m, x);
      |L| == |P| + |S| + 1 && L[..|P|] == P && L[|P|..] == S[..m] + [x] + S[m..] &&
      L[|P| + m] == x && (m < |S| ==> L[|P| + m + 1] == S[m])
  {
    var L := Layout(P, S, m, x);
    assert L == P + (S[..m] + [x] + S[m..]);
  }

  /** Swapping `x` with the entry after it moves it one place on in the layout. */
  lemma LayoutSwap<T>(P: seq<T>, S: seq<T>, m: nat, x: T)
    requires m < |S|
    ensures var L, j := Layout(P, S, m, x), |P| + m;
      L[j := L[j + 1]][j + 1 := x] == Layout(P, S, m + 1, x)
  {
    LayoutAt(P, S, m, x);
    LayoutAt(P, S, m + 1, x);
  }

  /** Inserts `a[i]` into the sorted `a[i + 1..]` by swapping it rightwards. */
  method InsertAt(a: array<SidecarRecord>, i: nat)
    requires i < a.Length
    modifies a
    ensures a[..i] == old(a[..i])
    ensures a[i..] == Insert(old(a[i]), old(a[i + 1..]))
  {
    ghost var P, S := a[..i], a[i + 1..];
    var x := a[i];
    assert a[..] == Layout(P, S, 0, x);
    var j := i;
    while j + 1 < a.Length && StrLt(SortKey(a[j + 1]), SortKey(a[j]))
      invariant i <= j < a.Length
      invariant a[..] == Layout(P, S, j - i, x)
      invariant forall k :: 0 <= k < j - i ==> StrLt(SortKey(S[k]), SortKey(x))
    {
      assert a[j] == x && a[j + 1] == S[j - i] by { LayoutFacts(P, S, j - i, x); }
      LayoutSwap(P, S, j - i, x);
      a[j], a[j + 1] := a[j + 1], a[j];
      j := j + 1;
    }
    assert j + 1 < a.Length ==> a[j] == x && a[j + 1] == S[j - i] by { LayoutFacts(P, S, j - i, x); }
    LayoutStop(P, S, j - i, x);
  }

  /** Where the swapping stops, the layout is the untouched prefix followed by the insertion. */
  lemma LayoutStop(P: seq<SidecarRecord>, S: seq<SidecarRecord>, m: nat, x: SidecarRecord)
    requires m <= |S|
    requires forall k :: 0 <= k < m ==> StrLt(SortKey(S[k]), SortKey(x))
    requires m == |S| || !StrLt(SortKey(S[m]), SortKey(x))
    ensures Layout(P, S, m, x)[..|P|] == P && Layout(P, S, m, x)[|P|..] == Insert(x, S)
  {
    LayoutFacts(P, S, m, x);
    InsertAtStop(x, S, m);
  }

  /**
   * `images.sort(key=...)`: an insertion sort from the back, which moves
   * each entry right past the entries with a strictly smaller key.
   */
  method SortImages(a: array<SidecarRecord>)
    modifies a
    ensures a[..] == StableSort(old(a[..]))
  {
    ghost var A := a[..];
    var i := a.Length;
    while i > 0
      invariant 0 <= i <= a.Length
      invariant a[..i] == A[..i]
      invariant a[i..] == StableSort(A[i..])
    {
      i := i - 1;
      assert A[i..] == [A[i]] + A[i + 1..];
      InsertAt(a, i);
    }
    assert A[0..] == A;
  }

  /** A clip as far as the model follows it: the image it shows and the caption text laid over it, if any. */
  datatype Clip = Clip(imageUrl: string, overlay: Option<string>)

  /** The caption is truthy: present and not empty. */
  predicate HasCaption(e: SidecarRecord) {
    e.instaReelCaption.Some? && e.instaReelCaption.value != ""
  }

  /** The clip of an entry whose processing does not raise. */
  function ClipOf(e: SidecarRecord): (c: Clip)
    ensures c.imageUrl == e.imageUrl
    ensures c.overlay.Some? <==> HasCaption(e)
    ensures c.overlay.Some? ==> c.overlay == e.instaReelCaption
  {
    Clip(e.imageUrl, if HasCaption(e) then e.instaReelCaption else None)
  }

  /** The clips of the entries that build, in entry order. */
  function ClipsOf(entries: seq<SidecarRecord>, builds: SidecarRecord -> bool): seq<Clip> {
    if entries == [] then []
    else
      var init := ClipsOf(entries[..|entries| - 1], builds);
      var last := entries[|entries| - 1];
      if builds(last) then init + [ClipOf(last)] else init
  }

  /** Clip order follows entry order: the clips of a concatenation are the concatenated clips. */
  lemma {:induction false} ClipsOfAppend(a: seq<SidecarRecord>, b: seq<SidecarRecord>, builds: SidecarRecord -> bool)
    ensures ClipsOf(a + b, builds) == ClipsOf(a, builds) + ClipsOf(b, builds)
  {
    if b != [] {
      var b' := b[..|b| - 1];
      assert (a + b)[..|a + b| - 1] == a + b';
      ClipsOfAppend(a, b', builds);
    } else {
      assert a + b == a;
    }
  }

  /** A clip is there exactly when some entry builds it. */
  lemma {:induction false} ClipsOfMembership(entries: seq<SidecarRecord>, builds: SidecarRecord -> bool, c: Clip)
    ensures c in ClipsOf(entries, builds) <==> exists e :: e in entries && builds(e) && ClipOf(e) == c
  {
    if entries != [] {
      var init := entries[..|entries| - 1];
      var last := entries[|entries| - 1];
      ClipsOfMembership(init, builds, c);
      assert entries == init + [last];
      if exists e :: e in entries && builds(e) && ClipOf(e) == c {
        var e :| e in entries && builds(e) && ClipOf(e) == c;
        if e != last {
          assert e in init;
        }
      }
    }
  }

  /** No clip at all exactly when every entry fails. */
  lemma NoClipsIffAllFail(entries: seq<SidecarRecord>, builds: SidecarRecord -> bool)
    ensures ClipsOf(entries, builds) == [] <==> forall e :: e in entries ==> !builds(e)
  {
    var clips := ClipsOf(entries, builds);
    if clips != [] {
      ClipsOfMembership(entries, builds, clips[0]);
    }
    if exists e :: e in entries && builds(e) {
      var e :| e in entries && builds(e);
      ClipsOfMembership(entries, builds, ClipOf(e));
    }
  }

  /** The clip loop of `create_reel`: appends the clip of every entry that does not raise, skips the others. */
  method CollectClips(images: array<SidecarRecord>, builds: SidecarRecord -> bool) returns (clips: seq<Clip>)
    ensures clips == ClipsOf(images[..], builds)
  {
    clips := [];
    for i := 0 to images.Length
      invariant clips == ClipsOf(images[..i], builds)
    {
      assert images[..i + 1][..i] == images[..i];
      if builds(images[i]) {
        clips := clips + [ClipOf(images[i])];
      }
    }
    assert images[..images.Length] == images[..];
  }

  /** What `create_reel` ends with: the video written from the clips, or only the message. */
  datatype ReelOutcome = Written(outputFile: string, clips: seq<Clip>) | NoClips

  /**
   * `create_reel(json_file, output_file)` after loading: sorts `images` in
   * place, collects the clips, and writes the video exactly when there is at
   * least one clip.
   */
  method CreateReel(images: array<SidecarRecord>, builds: SidecarRecord -> bool, outputFile: string)
    returns (outcome: ReelOutcome)
    modifies images
    ensures images[..] == StableSort(old(images[..]))
    ensures var clips := ClipsOf(images[..], builds);
      outcome == if clips == [] then NoClips else Written(outputFile, clips)
  {
    SortImages(images);
    var clips := CollectClips(images, builds);
    if clips != [] {
      outcome := Written(outputFile, clips);
    } else {
      outcome := NoClips;
    }
  }

  /**
   * From analysis to reel: an entry's clip carries a caption overlay exactly
   * when the analysis of its image succeeded and extracted a non-empty caption.
   */
  lemma OverlayIffCaptionExtracted(r: AnalysisResult, baseUrl: string)
    ensures var c := ClipOf(ToRecord(r, baseUrl));
      c.overlay.Some? <==> r.outcome.Analysis? && r.outcome.caption.Some? && r.outcome.caption.value != ""
    ensures ClipOf(ToRecord(r, baseUrl)).imageUrl == baseUrl + r.fileName
  {
  }
}
