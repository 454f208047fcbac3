/** The placeholder pass of `processFile` (auto_fill.js): each matched
    `<img ... data-unsplash-auto|search ...>` tag that is not yet marked gets
    a photo's `src`, its `data-unsplash-id` and the
    `data-unsplash-processed` marker, and the rewritten tags are spliced
    back into the file content in descending start order. */
module Placeholders {
  import opened Wrappers
  import opened Text

  const ImgOpen: string := "<img"
  const ProcessedName: string := "data-unsplash-processed"
  const IdName: string := "data-unsplash-id"

  /** What is inserted after `<img` to mark a tag as processed. */
  const ProcessedAttr: string := " " + ProcessedName + "=\"true\""

  function IdAttr(id: string): string {
    " " + IdName + "=\"" + id + "\""
  }

  function SrcAttr(url: string): string {
    "src=\"" + url + "\""
  }

  /** What every match of `imgRegex` looks like at its start: `<img`, in any
      letter case, and at least one more character. */
  predicate IsImgTag(tag: string) {
    |tag| >= 5 && AsciiLower(tag[..4]) == ImgOpen
  }

  // ---------------------------------------------------------------------
  // The `src` attribute, `/src=["'][^"']*["']/`
  // ---------------------------------------------------------------------

  predicate IsQuote(c: char) {
    c == '"' || c == '\''
  }

  /** The first quote at or after `k`. */
  function QuoteFrom(s: string, k: nat): (r: Option<nat>)
    ensures r.Some? ==> k <= r.value < |s| && IsQuote(s[r.value])
    ensures r.Some? ==> forall i :: k <= i < r.value ==> !IsQuote(s[i])
    ensures r.None? ==> forall i :: k <= i < |s| ==> !IsQuote(s[i])
    decreases |s| - k
  {
    if k >= |s| then None
    else if IsQuote(s[k]) then Some(k)
    else QuoteFrom(s, k + 1)
  }

  /** The regular expression matches at `i`: `src=`, a quote, any run of
      non-quotes, and a closing quote. */
  predicate SrcMatchAt(s: string, i: nat) {
    i + 5 <= |s| && s[i..i + 4] == "src=" && IsQuote(s[i + 4]) && QuoteFrom(s, i + 5).Some?
  }

  datatype Span = Span(start: nat, end: nat)

  function FindSrcFrom(s: string, i: nat): (r: Option<Span>)
    ensures r.Some? ==> i <= r.value.start && SrcMatchAt(s, r.value.start)
    ensures r.Some? ==> r.value.end == QuoteFrom(s, r.value.start + 5).value + 1
    ensures r.Some? ==> forall j :: i <= j < r.value.start ==> !SrcMatchAt(s, j)
    ensures r.None? ==> forall j :: i <= j ==> !SrcMatchAt(s, j)
    decreases |s| - i
  {
    if i + 5 > |s| then None
    else if SrcMatchAt(s, i) then Some(Span(i, QuoteFrom(s, i + 5).value + 1))
    else FindSrcFrom(s, i + 1)
  }

  /** The leftmost match of the `src` pattern in `s`. */
  function FindSrc(s: string): (r: Option<Span>)
    ensures r.Some? ==> SrcMatchAt(s, r.value.start) && r.value.start + 6 <= r.value.end <= |s|
    ensures r.Some? ==> s[r.value.end - 1] == s[QuoteFrom(s, r.value.start + 5).value]
    ensures r.Some? ==> forall j :: 0 <= j < r.value.start ==> !SrcMatchAt(s, j)
    ensures r.None? ==> forall j :: 0 <= j ==> !SrcMatchAt(s, j)
  {
    FindSrcFrom(s, 0)
  }

  // ---------------------------------------------------------------------
  // The tag rewrite as written: string replacements of the exact `<img`
  // ---------------------------------------------------------------------

  /** Lines 421-425: replace the first `src` match, or add `src` after `<img`. */
  function AddSrcAsWritten(tag: string, url: string): (r: string)
    ensures FindSrc(tag).None? && IndexOf(tag, ImgOpen).None? ==> r == tag
  {
    match FindSrc(tag)
    case Some(m) => tag[..m.start] + SrcAttr(url) + tag[m.end..]
    case None => ReplaceFirst(tag, ImgOpen, ImgOpen + " " + SrcAttr(url))
  }

  /** Lines 418-440 as written. `replace("<img", …)` looks for the
      lower-case `<img` only, although the tags come from a
      case-insensitive match. */
  function RewriteTagAsWritten(tag: string, url: string, id: string): (r: string)
    ensures FindSrc(tag).None? && IndexOf(tag, ImgOpen).None? ==> r == tag
  {
    var t1 := AddSrcAsWritten(tag, url);
    var t2 := if !Includes(t1, IdName) then ReplaceFirst(t1, ImgOpen, ImgOpen + IdAttr(id)) else t1;
    if !Includes(t2, ProcessedName) then ReplaceFirst(t2, ImgOpen, ImgOpen + ProcessedAttr) else t2
  }

  /** An upper-case placeholder is returned untouched by the rewrite as
      written: no `src`, no id and no marker, so every later run matches
      it again and spends another search on it. */
  lemma UpperCaseTagNeverMarked(url: string, id: string)
    ensures var tag := "<IMG data-unsplash-auto>";
      RewriteTagAsWritten(tag, url, id) == tag && !Includes(RewriteTagAsWritten(tag, url, id), ProcessedName)
  {
    var tag := "<IMG data-unsplash-auto>";
    assert 'r' !in tag && 'i' !in tag;
    forall j: nat
      ensures !SrcMatchAt(tag, j)
    {
      if j + 5 <= |tag| {
        assert tag[j..j + 4][1] == tag[j + 1] != 'r';
      }
    }
    AbsentChar(tag, ImgOpen, 'i');
    AbsentChar(tag, IdName, 'i');
    AbsentChar(tag, ProcessedName, 'r');
  }

  // ---------------------------------------------------------------------
  // The corrected rewrite: insert right after the tag name, whatever its case
  // ---------------------------------------------------------------------

  /** `tag` with `attr` inserted right after its four-character tag name. */
  function AfterName(tag: string, attr: string): (r: string)
    requires |tag| >= 4
    ensures |r| == |tag| + |attr| && r[..4] == tag[..4]
  {
    tag[..4] + attr + tag[4..]
  }

  function AddSrc(tag: string, url: string): (r: string)
    requires IsImgTag(tag)
    ensures IsImgTag(r) && r[..4] == tag[..4]
    ensures Includes(r, SrcAttr(url))
  {
    match FindSrc(tag)
    case Some(m) =>
      HeadLeavesNoRoom(tag, "src=", m.start);
      var r := tag[..m.start] + SrcAttr(url) + tag[m.end..];
      IncludesMiddle(tag[..m.start], SrcAttr(url), tag[m.end..]);
      assert r[..4] == tag[..4];
      r
    case None =>
      var r := AfterName(tag, " " + SrcAttr(url));
      IncludesMiddle(tag[..4] + " ", SrcAttr(url), tag[4..]);
      assert r == tag[..4] + " " + SrcAttr(url) + tag[4..];
      r
  }

  /** The rewrite of lines 418-440 with every `<img` insertion made right
      after the tag name the match found, whatever its letter case. */
  function RewriteTag(tag: string, url: string, id: string): (r: string)
    requires IsImgTag(tag)
    ensures |r| >= 4 && r[..4] == tag[..4]
  {
    var t1 := AddSrc(tag, url);
    var t2 := if !Includes(t1, IdName) then AfterName(t1, IdAttr(id)) else t1;
    if !Includes(t2, ProcessedName) then AfterName(t2, ProcessedAttr) else t2
  }

  /** The rewritten tag always carries `data-unsplash-processed`, so the
      check of line 384 skips it on the next run. */
  lemma RewriteTagMarks(tag: string, url: string, id: string)
    requires IsImgTag(tag)
    ensures Includes(RewriteTag(tag, url, id), ProcessedName)
  {
    var t1 := AddSrc(tag, url);
    var t2 := if !Includes(t1, IdName) then AfterName(t1, IdAttr(id)) else t1;
    if !Includes(t2, ProcessedName) {
      MarkAdded(t2);
    }
  }

  /** The rewritten tag points at the new photo: it holds `src="url"`. */
  lemma RewriteTagSetsSrc(tag: string, url: string, id: string)
    requires IsImgTag(tag)
    ensures Includes(RewriteTag(tag, url, id), SrcAttr(url))
  {
    var t1 := AddSrc(tag, url);
    KeptAfterName(t1, SrcAttr(url), IdAttr(id));
    var t2 := if !Includes(t1, IdName) then AfterName(t1, IdAttr(id)) else t1;
    KeptAfterName(t2, SrcAttr(url), ProcessedAttr);
  }

  /** The rewritten tag has a `data-unsplash-id`. */
  lemma RewriteTagHasId(tag: string, url: string, id: string)
    requires IsImgTag(tag)
    ensures Includes(RewriteTag(tag, url, id), IdName)
  {
    var t1 := AddSrc(tag, url);
    if !Includes(t1, IdName) {
      IdAdded(t1, id);
    }
    var t2 := if !Includes(t1, IdName) then AfterName(t1, IdAttr(id)) else t1;
    KeptAfterName(t2, IdName, ProcessedAttr);
  }

  /** When the tag had no id yet, the one added is the photo's. */
  lemma RewriteTagUsesPhotoId(tag: string, url: string, id: string)
    requires IsImgTag(tag) && !Includes(AddSrc(tag, url), IdName)
    ensures Includes(RewriteTag(tag, url, id), IdAttr(id))
  {
    var t1 := AddSrc(tag, url);
    IdAdded(t1, id);
    KeptAfterName(AfterName(t1, IdAttr(id)), IdAttr(id), ProcessedAttr);
  }

  /** Inserting the id after the tag name adds both the attribute and its name. */
  lemma IdAdded(t: string, id: string)
    requires IsImgTag(t)
    ensures var r := AfterName(t, IdAttr(id));
      IsImgTag(r) && Includes(r, IdName) && Includes(r, IdAttr(id))
  {
    var r := AfterName(t, IdAttr(id));
    IncludesMiddle(t[..4] + " ", IdName, "=\"" + id + "\"" + t[4..]);
    assert r == (t[..4] + " ") + IdName + ("=\"" + id + "\"" + t[4..]);
    IncludesMiddle(t[..4], IdAttr(id), t[4..]);
  }

  /** Inserting the marker after the tag name adds it. */
  lemma MarkAdded(t: string)
    requires IsImgTag(t)
    ensures var r := AfterName(t, ProcessedAttr);
      IsImgTag(r) && Includes(r, ProcessedName)
  {
    var r := AfterName(t, ProcessedAttr);
    IncludesMiddle(t[..4] + " ", ProcessedName, "=\"true\"" + t[4..]);
    assert r == (t[..4] + " ") + ProcessedName + ("=\"true\"" + t[4..]);
  }

  /** A pattern that starts with a character other than `<`, `i`, `m` and `g`
      (in either case) cannot start inside the tag name. */
  lemma HeadLeavesNoRoom(t: string, p: string, j: nat)
    requires IsImgTag(t) && p != [] && OccursAt(t, p, j)
    requires LowerChar(p[0]) !in ImgOpen
    ensures j >= 4
  {
    forall i | 0 <= i < 4
      ensures t[i] != p[0]
    {
      assert AsciiLower(t[..4])[i] == LowerChar(t[i]);
      assert ImgOpen[i] in ImgOpen;
    }
    assert t[j] == t[j..j + |p|][0];
  }

  /** An occurrence of such a pattern survives an insertion after the tag name. */
  lemma KeptAfterName(t: string, p: string, attr: string)
    requires IsImgTag(t) && p != [] && LowerChar(p[0]) !in ImgOpen
    ensures Includes(t, p) ==> Includes(AfterName(t, attr), p)
  {
    if Includes(t, p) {
      var j := IndexOf(t, p).value;
      HeadLeavesNoRoom(t, p, j);
      OccursAfterInsert(t, p, j, 4, attr);
      assert t[..4] + attr + t[4..] == AfterName(t, attr);
    }
  }

  /** On a lower-case `<img` tag the rewrite as written and the corrected
      rewrite agree, so the marker is always added there too. */
  lemma AsWrittenAgreesOnLowerCase(tag: string, url: string, id: string)
    requires IsImgTag(tag) && tag[..4] == ImgOpen
    ensures RewriteTagAsWritten(tag, url, id) == RewriteTag(tag, url, id)
    ensures Includes(RewriteTagAsWritten(tag, url, id), ProcessedName)
  {
    AddSrcAgrees(tag, url);
    var t1 := AddSrc(tag, url);
    ReplaceAtHead(t1, IdAttr(id));
    var t2 := if !Includes(t1, IdName) then AfterName(t1, IdAttr(id)) else t1;
    ReplaceAtHead(t2, ProcessedAttr);
    RewriteTagMarks(tag, url, id);
  }

  lemma AddSrcAgrees(tag: string, url: string)
    requires IsImgTag(tag) && tag[..4] == ImgOpen
    ensures AddSrcAsWritten(tag, url) == AddSrc(tag, url)
  {
    ReplaceAtHead(tag, " " + SrcAttr(url));
  }

  /** `replace("<img", "<img" + attr)` on a tag that opens with `<img`. */
  lemma ReplaceAtHead(t: string, attr: string)
    requires |t| >= 4 && t[..4] == ImgOpen
    ensures ReplaceFirst(t, ImgOpen, ImgOpen + attr) == AfterName(t, attr)
  {
    assert OccursAt(t, ImgOpen, 0);
  }

  // ---------------------------------------------------------------------
  // Collecting the replacements (lines 380-453, with the matches as input)
  // ---------------------------------------------------------------------

  /** One match of `imgRegex`: `match.index` and `match[0]`. */
  datatype Placeholder = Placeholder(index: nat, tag: string)

  /** What `client.searchPhotos(query, 1)` gave for a placeholder: no
      photos, a first photo (its `urls.regular`, when present, whether it
      has a `links` object, and its `id`), or an error, which the pass
      catches and logs. */
  datatype SearchOutcome = NoPhotos | FirstPhoto(regularUrl: Option<string>, hasLinks: bool, id: string) | SearchFailed

  function TagEnd(p: Placeholder): nat {
    p.index + |p.tag|
  }

  /** The matches as `imgRegex.exec` delivers them: each is the content at
      its index, opens an `img` tag, and ends before the next one starts. */
  predicate WellFormed(content: string, ps: seq<Placeholder>) {
    && (forall k :: 0 <= k < |ps| ==>
          TagEnd(ps[k]) <= |content| && content[ps[k].index..TagEnd(ps[k])] == ps[k].tag && IsImgTag(ps[k].tag))
    && (forall i, j :: 0 <= i < j < |ps| ==> TagEnd(ps[i]) <= ps[j].index)
  }

  datatype Replacement = Replacement(start: nat, end: nat, newText: string)

  /** Which tag rewrite the pass applies: the one of lines 418-440 as
      written, or the corrected one that inserts after the tag name the
      match found, whatever its letter case. */
  datatype Rewrite = AsWritten | Corrected

  function Rewritten(rw: Rewrite, tag: string, url: string, id: string): string
    requires IsImgTag(tag)
  {
    match rw
    case AsWritten => RewriteTagAsWritten(tag, url, id)
    case Corrected => RewriteTag(tag, url, id)
  }

  /** Every match opens with the lower-case `<img`. */
  predicate LowerCaseTags(ps: seq<Placeholder>) {
    forall k :: 0 <= k < |ps| ==> |ps[k].tag| >= 4 && ps[k].tag[..4] == ImgOpen
  }

  /** The replacement one placeholder contributes, if any. A photo with a
      URL but no `links` object throws a TypeError when
      `photo.links.download_location` is read (line 414); the catch of lines
      449-452 logs it and nothing is pushed. The rewritten
      tag carries the marker whenever the corrected rewrite is used, and with
      the rewrite as written only when the tag opens with a lower-case `<img`. */
  function ReplacementFor(p: Placeholder, found: SearchOutcome, dryRun: bool, rw: Rewrite): (r: Option<Replacement>)
    requires IsImgTag(p.tag)
    ensures r.Some? ==> r.value.start == p.index && r.value.end == TagEnd(p)
    ensures r.Some? <==> !Includes(p.tag, ProcessedName) && !dryRun && found.FirstPhoto?
                          && found.regularUrl.Some? && found.regularUrl.value != [] && found.hasLinks
    ensures r.Some? ==> r.value.newText == Rewritten(rw, p.tag, found.regularUrl.value, found.id)
    ensures r.Some? && (rw == Corrected || p.tag[..4] == ImgOpen) ==> Includes(r.value.newText, ProcessedName)
  {
    if Includes(p.tag, ProcessedName) then None
    else if dryRun then None
    else match found
      case FirstPhoto(Some(url), hasLinks, id) =>
        if url == [] then None
        else if !hasLinks then None
        else
          RewriteTagMarks(p.tag, url, id);
          var rep := Replacement(p.index, TagEnd(p), Rewritten(rw, p.tag, url, id));
          if p.tag[..4] == ImgOpen then (AsWrittenAgreesOnLowerCase(p.tag, url, id); Some(rep))
          else Some(rep)
      case _ => None
  }

  /** The `replacements` list after the match loop. */
  function Collected(ps: seq<Placeholder>, found: seq<SearchOutcome>, dryRun: bool, rw: Rewrite): (r: seq<Replacement>)
    requires |found| == |ps| && forall k :: 0 <= k < |ps| ==> IsImgTag(ps[k].tag)
    ensures |r| <= |ps|
    ensures rw == Corrected || LowerCaseTags(ps) ==>
      forall i :: 0 <= i < |r| ==> Includes(r[i].newText, ProcessedName)
    ensures dryRun ==> r == []
  {
    if ps == [] then []
    else
      var n := |ps| - 1;
      assert LowerCaseTags(ps) ==> LowerCaseTags(ps[..n]);
      var prev := Collected(ps[..n], found[..n], dryRun, rw);
      match ReplacementFor(ps[n], found[n], dryRun, rw)
      case None => prev
      case Some(rep) => prev + [rep]
  }

  /** The match loop: one pass over the matches, pushing a replacement for
      each unmarked placeholder that found a photo with a URL. */
  method CollectReplacements(ps: seq<Placeholder>, found: seq<SearchOutcome>, dryRun: bool, rw: Rewrite)
    returns (replacements: seq<Replacement>)
    requires |found| == |ps| && forall k :: 0 <= k < |ps| ==> IsImgTag(ps[k].tag)
    ensures replacements == Collected(ps, found, dryRun, rw)
  {
    replacements := [];
    for k := 0 to |ps|
      invariant replacements == Collected(ps[..k], found[..k], dryRun, rw)
    {
      assert ps[..k + 1][..k] == ps[..k] && found[..k + 1][..k] == found[..k];
      var rep := ReplacementFor(ps[k], found[k], dryRun, rw);
      if rep.Some? {
        replacements := replacements + [rep.value];
      }
    }
    assert ps[..|ps|] == ps && found[..|ps|] == found;
  }

  // ---------------------------------------------------------------------
  // Splicing
  // ---------------------------------------------------------------------

  /** Replacements in ascending order, non-empty, pairwise non-overlapping
      and within the content, as the match loop produces them. */
  predicate Disjoint(c: string, reps: seq<Replacement>) {
    && (forall i :: 0 <= i < |reps| ==> reps[i].start < reps[i].end <= |c|)
    && (forall i, j :: 0 <= i < j < |reps| ==> reps[i].end <= reps[j].start)
  }

  /** Splicing may resume at `pos` with the replacements from index `k` on. */
  predicate ResumesAt(c: string, reps: seq<Replacement>, k: nat, pos: nat) {
    k <= |reps| && pos <= |c| && (k < |reps| ==> pos <= reps[k].start)
  }

  /** The reference definition, read left to right: the content from `pos`
      with the ranges of `reps[k..]` replaced by their new texts. */
  function SpliceAt(c: string, reps: seq<Replacement>, k: nat, pos: nat): string
    requires Disjoint(c, reps) && ResumesAt(c, reps, k, pos)
    decreases |reps| - k
  {
    if k == |reps| then c[pos..]
    else c[pos..reps[k].start] + reps[k].newText + SpliceAt(c, reps, k + 1, reps[k].end)
  }

  /** The content after all replacements. */
  function Splice(c: string, reps: seq<Replacement>): string
    requires Disjoint(c, reps)
  {
    SpliceAt(c, reps, 0, 0)
  }

  /** The text before the first replaced range is kept. */
  lemma SpliceKeepsPrefix(c: string, reps: seq<Replacement>, k: nat, pos: nat)
    requires Disjoint(c, reps) && ResumesAt(c, reps, k, pos) && k < |reps|
    ensures var r := SpliceAt(c, reps, k, pos);
      reps[k].start - pos <= |r| && r[..reps[k].start - pos] == c[pos..reps[k].start]
  {
  }

  /** The end of the last replaced range, or `pos` when none is left. */
  function LastEnd(reps: seq<Replacement>, k: nat, pos: nat): nat {
    if k >= |reps| then pos else reps[|reps| - 1].end
  }

  /** The text after the last replaced range is kept. */
  lemma {:induction false} SpliceKeepsSuffix(c: string, reps: seq<Replacement>, k: nat, pos: nat)
    requires Disjoint(c, reps) && ResumesAt(c, reps, k, pos)
    ensures var r := SpliceAt(c, reps, k, pos); var e := LastEnd(reps, k, pos);
      e <= |c| && |c| - e <= |r| && r[|r| - (|c| - e)..] == c[e..]
    decreases |reps| - k
  {
    if k < |reps| {
      SpliceKeepsSuffix(c, reps, k + 1, reps[k].end);
    }
  }

  /** `replacements.sort((a, b) => b.start - a.start)`: the ranges arrive in
      ascending order with distinct starts, so the sorted list is their
      reversal. */
  function ByStartDescending(reps: seq<Replacement>): (r: seq<Replacement>)
    ensures |r| == |reps|
  {
    if reps == [] then [] else ByStartDescending(reps[1..]) + [reps[0]]
  }

  lemma {:induction false} ByStartDescendingAt(reps: seq<Replacement>, i: nat)
    requires i < |reps|
    ensures ByStartDescending(reps)[i] == reps[|reps| - 1 - i]
  {
    if i < |reps| - 1 {
      ByStartDescendingAt(reps[1..], i);
    }
  }

  /** The sort neither loses nor adds a replacement. */
  lemma {:induction false} ByStartDescendingPermutes(reps: seq<Replacement>)
    ensures multiset(ByStartDescending(reps)) == multiset(reps)
  {
    if reps != [] {
      ByStartDescendingPermutes(reps[1..]);
      assert reps == [reps[0]] + reps[1..];
    }
  }

  /** The result is sorted by strictly descending start. */
  lemma SortedDescending(c: string, reps: seq<Replacement>, i: nat, j: nat)
    requires Disjoint(c, reps) && i < j < |reps|
    ensures ByStartDescending(reps)[i].start > ByStartDescending(reps)[j].start
  {
    ByStartDescendingAt(reps, i);
    ByStartDescendingAt(reps, j);
  }

  /** Where the splice resumes after the replacements before index `k`. */
  function Lim(reps: seq<Replacement>, k: nat): nat
    requires k <= |reps|
  {
    if k == 0 then 0 else reps[k - 1].end
  }

  /** One turn of the splice loop keeps its invariant: the content before
      the `k`-th range is original, everything after it already spliced. */
  lemma SpliceLoopStep(c: string, reps: seq<Replacement>, k: nat, cur: string)
    requires Disjoint(c, reps) && 1 <= k <= |reps|
    requires ResumesAt(c, reps, k, Lim(reps, k))
    requires cur == c[..Lim(reps, k)] + SpliceAt(c, reps, k, Lim(reps, k))
    ensures reps[k - 1].start <= reps[k - 1].end <= |cur|
    ensures ResumesAt(c, reps, k - 1, Lim(reps, k - 1))
    ensures cur[..reps[k - 1].start] + reps[k - 1].newText + cur[reps[k - 1].end..]
            == c[..Lim(reps, k - 1)] + SpliceAt(c, reps, k - 1, Lim(reps, k - 1))
  {
    var rep := reps[k - 1];
    var lim := Lim(reps, k - 1);
    var rest := SpliceAt(c, reps, k, rep.end);
    assert cur[..rep.start] == c[..rep.start];
    assert cur[rep.end..] == rest;
    assert c[..rep.start] == c[..lim] + c[lim..rep.start];
  }

  /** The splice loop of lines 456-463: sort, then replace each range of the
      current content, last range first, so that no earlier index moves. */
  method ApplyReplacements(content: string, reps: seq<Replacement>) returns (result: string)
    requires Disjoint(content, reps)
    ensures result == Splice(content, reps)
  {
    var sorted := ByStartDescending(reps);
    result := content;
    assert content == content[..Lim(reps, |reps|)] + content[Lim(reps, |reps|)..];
    for t := 0 to |sorted|
      invariant ResumesAt(content, reps, |reps| - t, Lim(reps, |reps| - t))
      invariant result == content[..Lim(reps, |reps| - t)]
                          + SpliceAt(content, reps, |reps| - t, Lim(reps, |reps| - t))
    {
      var k := |reps| - t;
      var rep := sorted[t];
      ByStartDescendingAt(reps, t);
      assert rep == reps[k - 1];
      SpliceLoopStep(content, reps, k, result);
      result := result[..rep.start] + rep.newText + result[rep.end..];
    }
    assert content[..Lim(reps, 0)] == [];
  }

  /** Replacing every range by the text it already holds changes nothing. */
  lemma {:induction false} SpliceIdentity(c: string, reps: seq<Replacement>, k: nat, pos: nat)
    requires Disjoint(c, reps) && ResumesAt(c, reps, k, pos)
    requires forall i :: 0 <= i < |reps| ==> reps[i].newText == c[reps[i].start..reps[i].end]
    ensures SpliceAt(c, reps, k, pos) == c[pos..]
    decreases |reps| - k
  {
    if k < |reps| {
      var r := reps[k];
      SpliceIdentity(c, reps, k + 1, r.end);
      assert r.newText == c[r.start..r.end];
      assert c[pos..] == c[pos..r.start] + c[r.start..r.end] + c[r.end..];
    }
  }

  /** How much longer the new texts from index `k` on are than the ranges
      they replace. */
  function Growth(reps: seq<Replacement>, k: nat): int
    decreases |reps| - k
  {
    if k >= |reps| then 0
    else |reps[k].newText| - (reps[k].end - reps[k].start) + Growth(reps, k + 1)
  }

  lemma {:induction false} SpliceLength(c: string, reps: seq<Replacement>, k: nat, pos: nat)
    requires Disjoint(c, reps) && ResumesAt(c, reps, k, pos)
    ensures |SpliceAt(c, reps, k, pos)| == |c| - pos + Growth(reps, k)
    decreases |reps| - k
  {
    if k < |reps| {
      SpliceLength(c, reps, k + 1, reps[k].end);
    }
  }

  // ---------------------------------------------------------------------
  // The whole placeholder pass
  // ---------------------------------------------------------------------

  /** The replacements the match loop collects are ordered and disjoint, so
      the splice applies to them. */
  lemma {:induction false} CollectedDisjoint(content: string, ps: seq<Placeholder>, found: seq<SearchOutcome>, dryRun: bool,
                                            rw: Rewrite)
    requires WellFormed(content, ps) && |found| == |ps|
    ensures var r := Collected(ps, found, dryRun, rw);
      Disjoint(content, r) && (ps != [] ==> forall i :: 0 <= i < |r| ==> r[i].end <= TagEnd(ps[|ps| - 1]))
  {
    if ps != [] {
      var n := |ps| - 1;
      WellFormedPrefix(content, ps, n);
      CollectedDisjoint(content, ps[..n], found[..n], dryRun, rw);
      var prev := Collected(ps[..n], found[..n], dryRun, rw);
      var p := ps[n];
      assert TagEnd(p) <= |content| && IsImgTag(p.tag);
      if n > 0 {
        assert TagEnd(ps[n - 1]) <= p.index;
        assert ps[..n][n - 1] == ps[n - 1];
      }
      assert forall i :: 0 <= i < |prev| ==> prev[i].end <= p.index;
      var rep := ReplacementFor(p, found[n], dryRun, rw);
      if rep.Some? {
        DisjointSnoc(content, prev, rep.value);
      }
    }
  }

  lemma WellFormedPrefix(content: string, ps: seq<Placeholder>, n: nat)
    requires WellFormed(content, ps) && n <= |ps|
    ensures WellFormed(content, ps[..n])
  {
  }

  lemma DisjointSnoc(c: string, reps: seq<Replacement>, rep: Replacement)
    requires Disjoint(c, reps) && rep.start < rep.end <= |c|
    requires forall i :: 0 <= i < |reps| ==> reps[i].end <= rep.start
    ensures Disjoint(c, reps + [rep])
  {
  }

  /** The file content after the placeholder pass. */
  function PlaceholderPass(content: string, ps: seq<Placeholder>, found: seq<SearchOutcome>, dryRun: bool, rw: Rewrite): (r: string)
    requires WellFormed(content, ps) && |found| == |ps|
    ensures Collected(ps, found, dryRun, rw) == [] ==> r == content
  {
    CollectedDisjoint(content, ps, found, dryRun, rw);
    Splice(content, Collected(ps, found, dryRun, rw))
  }

  /** On matches that open with a lower-case `<img`, the pass as written and
      the corrected pass collect the same replacements. */
  lemma {:induction false} PassesAgreeOnLowerCase(ps: seq<Placeholder>, found: seq<SearchOutcome>, dryRun: bool)
    requires |found| == |ps| && forall k :: 0 <= k < |ps| ==> IsImgTag(ps[k].tag)
    requires LowerCaseTags(ps)
    ensures Collected(ps, found, dryRun, AsWritten) == Collected(ps, found, dryRun, Corrected)
  {
    if ps != [] {
      var n := |ps| - 1;
      assert LowerCaseTags(ps[..n]);
      PassesAgreeOnLowerCase(ps[..n], found[..n], dryRun);
      var p := ps[n];
      if found[n].FirstPhoto? && found[n].regularUrl.Some? {
        AsWrittenAgreesOnLowerCase(p.tag, found[n].regularUrl.value, found[n].id);
      }
    }
  }

  /** The finding at the level of the whole pass: a file holding only the
      placeholder `<IMG data-unsplash-auto>`, with a photo found for it, is
      left unchanged by the pass as written, although a replacement is
      pushed; the corrected pass writes the marker into it. */
  lemma AsWrittenPassKeepsUpperCase(url: string, id: string)
    requires url != []
    ensures var content := "<IMG data-unsplash-auto>";
      var ps := [Placeholder(0, content)];
      var found := [FirstPhoto(Some(url), true, id)];
      && WellFormed(content, ps)
      && Collected(ps, found, false, AsWritten) == [Replacement(0, |content|, content)]
      && PlaceholderPass(content, ps, found, false, AsWritten) == content
      && Includes(PlaceholderPass(content, ps, found, false, Corrected), ProcessedName)
  {
    var content := "<IMG data-unsplash-auto>";
    var ps := [Placeholder(0, content)];
    var found := [FirstPhoto(Some(url), true, id)];
    UpperCaseSetup(content);
    var rw := RewriteTagAsWritten(content, url, id);
    UpperCaseTagNeverMarked(url, id);
    SinglePass(content, found[0], AsWritten);
    var rc := RewriteTag(content, url, id);
    RewriteTagMarks(content, url, id);
    SinglePass(content, found[0], Corrected);
  }

  /** The placeholder of the finding is a well-formed, unmarked match. */
  lemma UpperCaseSetup(content: string)
    requires content == "<IMG data-unsplash-auto>"
    ensures IsImgTag(content) && WellFormed(content, [Placeholder(0, content)])
    ensures !Includes(content, ProcessedName)
  {
    assert AsciiLower(content[..4]) == ImgOpen;
    assert 'r' !in content;
    AbsentChar(content, ProcessedName, 'r');
  }

  /** A file that is a single unmarked placeholder with a photo found for it
      becomes the rewritten tag. */
  lemma SinglePass(content: string, found: SearchOutcome, rw: Rewrite)
    requires IsImgTag(content) && WellFormed(content, [Placeholder(0, content)])
    requires !Includes(content, ProcessedName)
    requires found.FirstPhoto? && found.regularUrl.Some? && found.regularUrl.value != [] && found.hasLinks
    ensures var ps := [Placeholder(0, content)];
      var rep := Replacement(0, |content|, Rewritten(rw, content, found.regularUrl.value, found.id));
      && Collected(ps, [found], false, rw) == [rep]
      && PlaceholderPass(content, ps, [found], false, rw) == rep.newText
  {
    var ps := [Placeholder(0, content)];
    var rep := Replacement(0, |content|, Rewritten(rw, content, found.regularUrl.value, found.id));
    SingleCollected(content, found, rw);
    CollectedDisjoint(content, ps, [found], false, rw);
    SingleSplice(content, rep);
  }

  /** The one placeholder of such a file contributes its rewritten tag. */
  lemma SingleCollected(content: string, found: SearchOutcome, rw: Rewrite)
    requires IsImgTag(content)
    requires !Includes(content, ProcessedName)
    requires found.FirstPhoto? && found.regularUrl.Some? && found.regularUrl.value != [] && found.hasLinks
    ensures Collected([Placeholder(0, content)], [found], false, rw)
            == [Replacement(0, |content|, Rewritten(rw, content, found.regularUrl.value, found.id))]
  {
    var ps := [Placeholder(0, content)];
    var url, id := found.regularUrl.value, found.id;
    assert found == FirstPhoto(Some(url), true, id);
    var rep := Replacement(0, |content|, Rewritten(rw, content, url, id));
    var r1 := ReplacementFor(ps[0], found, false, rw);
    assert r1.Some? && r1.value.start == 0 && r1.value.end == |content|;
    assert r1 == Some(rep);
    assert ps[..0] == [] && [found][..0] == [];
  }

  /** Replacing the whole content by one range gives the range's new text. */
  lemma SingleSplice(content: string, rep: Replacement)
    requires rep.start == 0 && rep.end == |content| && content != []
    ensures Disjoint(content, [rep]) && Splice(content, [rep]) == rep.newText
  {
    assert SpliceAt(content, [rep], 1, |content|) == [];
    assert content[0..0] == [];
    assert SpliceAt(content, [rep], 0, 0) == [] + rep.newText + [];
  }

  /** A photo without `links` makes the pass throw and catch a TypeError
      before anything is pushed: the file stays as it was. */
  lemma MissingLinksLeavesTag(content: string, url: string, id: string)
    requires IsImgTag(content) && WellFormed(content, [Placeholder(0, content)])
    ensures var ps := [Placeholder(0, content)];
      var found := [FirstPhoto(Some(url), false, id)];
      && Collected(ps, found, false, Corrected) == []
      && PlaceholderPass(content, ps, found, false, Corrected) == content
  {
    var ps := [Placeholder(0, content)];
    assert ps[..0] == [];
  }

  /** A dry run leaves the content as it is. */
  lemma DryRunUnchanged(content: string, ps: seq<Placeholder>, found: seq<SearchOutcome>, rw: Rewrite)
    requires WellFormed(content, ps) && |found| == |ps|
    ensures PlaceholderPass(content, ps, found, true, rw) == content
  {
  }

  /** The text before the first rewritten tag is the original one. */
  lemma PassKeepsPrefix(content: string, ps: seq<Placeholder>, found: seq<SearchOutcome>, dryRun: bool, rw: Rewrite)
    requires WellFormed(content, ps) && |found| == |ps|
    requires Collected(ps, found, dryRun, rw) != []
    ensures var start := Collected(ps, found, dryRun, rw)[0].start;
      var out := PlaceholderPass(content, ps, found, dryRun, rw);
      start <= |out| && start <= |content| && out[..start] == content[..start]
  {
    CollectedDisjoint(content, ps, found, dryRun, rw);
    SpliceKeepsPrefix(content, Collected(ps, found, dryRun, rw), 0, 0);
  }

  /** The text after the last rewritten tag is the original one. */
  lemma PassKeepsSuffix(content: string, ps: seq<Placeholder>, found: seq<SearchOutcome>, dryRun: bool, rw: Rewrite)
    requires WellFormed(content, ps) && |found| == |ps|
    ensures var e := LastEnd(Collected(ps, found, dryRun, rw), 0, 0);
      var out := PlaceholderPass(content, ps, found, dryRun, rw);
      e <= |content| && |content| - e <= |out| && out[|out| - (|content| - e)..] == content[e..]
  {
    CollectedDisjoint(content, ps, found, dryRun, rw);
    var reps := Collected(ps, found, dryRun, rw);
    SpliceSuffix(content, reps, PlaceholderPass(content, ps, found, dryRun, rw));
  }

  lemma SpliceSuffix(c: string, reps: seq<Replacement>, out: string)
    requires Disjoint(c, reps) && out == Splice(c, reps)
    ensures var e := LastEnd(reps, 0, 0);
      e <= |c| && |c| - e <= |out| && out[|out| - (|c| - e)..] == c[e..]
  {
    SpliceKeepsSuffix(c, reps, 0, 0);
  }
}
