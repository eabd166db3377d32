/**
 * The records a note is stored as, and what each request computes from a
 * directory listing: the summaries of FETCH_ALL, the lookup of FETCH and
 * DELETE, and the stale files SAVE removes.
 */
module Listing {
  import opened Outcomes
  import opened Strings
  import opened Sequences
  import opened Naming

  /** A stored note; `content` is absent until the note is saved. */
  datatype Document = Document(id: string, title: string, content: Option<string>)

  /** One entry of the listing: a title and an id decoded from a file name, no content. */
  datatype Summary = Summary(title: string, id: Option<string>)

  function Summarize(file: string): (r: Summary)
    ensures IsPrefix(r.title, file) && Delimiter !in r.title
    ensures r.title != [] ==> r.id.Some? && IsPrefix(r.id.value, file[|r.title|..])
  {
    var entry := Summary(ListedTitle(file), ListedId(file));
    if entry.title == [] then entry
    else ListedIdVersusRemainder(file); entry
  }

  /** `files.map(...)` over the listing: one summary per file name, in directory order. */
  function ListAll(names: seq<string>): (r: seq<Summary>)
    ensures |r| == |names|
    ensures forall i :: 0 <= i < |names| ==> r[i] == Summarize(names[i])
  {
    if names == [] then [] else [Summarize(names[0])] + ListAll(names[1..])
  }

  /** `files.find((f) => f.includes(id))`, as the index of the file found. */
  function FirstContaining(names: seq<string>, id: string): (r: Option<nat>)
    ensures r.Some? ==> r.value < |names| && Contains(names[r.value], id)
    ensures r.Some? ==> forall j :: 0 <= j < r.value ==> !Contains(names[j], id)
    ensures r.None? <==> forall n :: n in names ==> !Contains(n, id)
  {
    FindIndex(names, f => Contains(f, id))
  }

  /** A file SAVE deletes: it contains the id but not `<title>-<id>`. */
  predicate Stale(file: string, id: string, title: string) {
    Contains(file, id) && !Contains(file, SaveKey(title, id))
  }

  /** The `filter` of SAVE: the stale files, in directory order. */
  function StaleFiles(names: seq<string>, id: string, title: string): (r: seq<string>)
    ensures forall f :: f in r <==> f in names && Contains(f, id) && !Contains(f, SaveKey(title, id))
    ensures Distinct(names) ==> Distinct(r)
  {
    Filter(names, f => Stale(f, id, title))
  }

  /** The listing once the stale files are deleted. */
  function Survivors(names: seq<string>, id: string, title: string): (r: seq<string>)
    ensures forall f :: f in r <==> f in names && !Stale(f, id, title)
    ensures forall f :: f in r && Contains(f, id) ==> Contains(f, SaveKey(title, id))
  {
    Filter(names, f => !Stale(f, id, title))
  }

  /** The files that have nothing to do with `id`. */
  function Unrelated(names: seq<string>, id: string): seq<string> {
    Filter(names, f => !Contains(f, id))
  }

  /** The listing after DELETE: the first name containing `id` is gone, if there is one. */
  function RemoveFirst(names: seq<string>, id: string): (r: seq<string>)
    ensures (forall n :: n in names ==> !Contains(n, id)) ==> r == names
    ensures |r| >= |names| - 1 && forall f :: f in r ==> f in names
  {
    match FirstContaining(names, id)
    case None => names
    case Some(k) => names[..k] + names[k + 1..]
  }

  /** The listing after a SAVE whose file write lands. */
  function AfterSave(names: seq<string>, id: string, title: string): (r: seq<string>)
    ensures FileName(title, id, ContentExt) in r
    ensures forall f :: f in r && Contains(f, id) ==> Contains(f, SaveKey(title, id))
  {
    WithName(Survivors(names, id, title), FileName(title, id, ContentExt))
  }

  /**
   * A listed entry of a file named by the convention: with a non-empty title
   * that has no delimiter and does not recur in `-<id>.<ext>`, the entry is that
   * title with `-<id>.<ext>` as its id.
   */
  lemma SummaryOfFileName(title: string, id: string, ext: string)
    requires title != [] && Delimiter !in title
    requires !Contains([Delimiter] + id + "." + ext, title)
    ensures Summarize(FileName(title, id, ext)) == Summary(title, Some([Delimiter] + id + "." + ext))
  {
    ListedIdOfFileName(title, id, ext);
  }

  /** The target of SAVE, and any other `<title>-<id>` file, is never stale for that title. */
  lemma FileNameNeverStale(title: string, id: string, ext: string)
    ensures !Stale(FileName(title, id, ext), id, title)
    ensures FileName(title, id, ext) !in StaleFiles([FileName(title, id, ext)], id, title)
  {
  }

  /**
   * After the cleanup of SAVE: every remaining name that contains the id
   * also contains `<title>-<id>`; the names unrelated to the id are all
   * still there, in the same relative order; and nothing that was not stale
   * is lost.
   */
  lemma {:induction false} CleanupSpec(names: seq<string>, id: string, title: string)
    ensures forall f :: f in Survivors(names, id, title) && Contains(f, id) ==> Contains(f, SaveKey(title, id))
    ensures Unrelated(Survivors(names, id, title), id) == Unrelated(names, id)
    ensures forall f :: f in names && !Stale(f, id, title) ==> f in Survivors(names, id, title)
    ensures |Survivors(names, id, title)| + |StaleFiles(names, id, title)| == |names|
  {
    if names != [] {
      CleanupSpec(names[1..], id, title);
      var f := names[0];
      var rest := Survivors(names[1..], id, title);
      if !Stale(f, id, title) {
        assert Survivors(names, id, title) == [f] + rest;
        assert ([f] + rest)[0] == f && ([f] + rest)[1..] == rest;
      }
    }
  }

  /**
   * The asynchronous write of SAVE gives the same listing whether it lands
   * before or after the cleanup, because its target is never stale.
   */
  lemma WriteCommutesWithCleanup(names: seq<string>, id: string, title: string, ext: string)
    ensures Survivors(WithName(names, FileName(title, id, ext)), id, title)
         == WithName(Survivors(names, id, title), FileName(title, id, ext))
  {
    var t := FileName(title, id, ext);
    FileNameNeverStale(title, id, ext);
    if t !in names {
      FilterAppend(names, [t], f => !Stale(f, id, title));
      assert Survivors([t], id, title) == [t];
    }
  }

  /** DELETE removes at most one name, the first that contains `id`, and keeps the rest in order. */
  lemma DeleteRemovesAtMostOne(names: seq<string>, id: string)
    requires Distinct(names)
    ensures |RemoveFirst(names, id)| == |names| - (if FirstContaining(names, id).Some? then 1 else 0)
    ensures (forall f :: f in names ==> !Contains(f, id)) ==> RemoveFirst(names, id) == names
    ensures FirstContaining(names, id).Some? ==>
      var k := FirstContaining(names, id).value;
      RemoveFirst(names, id) == Without(names, names[k]) && Contains(names[k], id)
        && forall j :: 0 <= j < k ==> !Contains(names[j], id)
  {
    match FirstContaining(names, id)
    case None =>
    case Some(k) =>
      WithoutAt(names, k);
  }

  /**
   * A second DELETE of the same id is a no-op when at most one name
   * contained the id; otherwise it removes the next matching name.
   */
  lemma DeleteTwice(names: seq<string>, id: string)
    requires Distinct(names)
    requires forall i, j :: 0 <= i < j < |names| && Contains(names[i], id) ==> !Contains(names[j], id)
    ensures RemoveFirst(RemoveFirst(names, id), id) == RemoveFirst(names, id)
  {
  }

  /**
   * Substring matching picks up other notes: with notes `AB` and `A`,
   * fetching or deleting id `A` finds the file of `AB` when it is listed first.
   */
  lemma MatchingReachesLongerIds()
    ensures var names := [CreatedName("AB"), CreatedName("A")];
      FirstContaining(names, "A") == Some(0)
      && RemoveFirst(names, "A") == [CreatedName("A")]
  {
    var names := [CreatedName("AB"), CreatedName("A")];
    assert names[0] == "Untitled-AB.json";
    assert names[0][9..10] == "A";
    assert OccursAt(names[0], "A", 9);
  }

  /** A new note's file is the first match for its id when no other name contains the id. */
  lemma CreatedIsFound(names: seq<string>, id: string)
    requires forall f :: f in names ==> !Contains(f, id)
    ensures FirstContaining(names + [CreatedName(id)], id) == Some(|names|)
  {
    var s := names + [CreatedName(id)];
    assert forall j :: 0 <= j < |names| ==> s[j] == names[j];
    assert Contains(s[|names|], id);
  }

  /**
   * Renaming: SAVE with title `a` and then with title `b` leaves, of all the
   * names that contain the id, only `<b>-<id>.html`, which a FETCH then finds.
   * This needs that no name outside this note contained `<b>-<id>`, and that
   * `<a>-<id>.html` does not contain it either (so `b` must not be empty).
   */
  lemma RenameLeavesOneFile(names: seq<string>, id: string, a: string, b: string)
    requires forall f :: f in names ==> !Contains(f, SaveKey(b, id))
    requires !Contains(FileName(a, id, ContentExt), SaveKey(b, id))
    ensures var after := AfterSave(AfterSave(names, id, a), id, b);
      && (forall f :: f in after && Contains(f, id) ==> f == FileName(b, id, ContentExt))
      && FirstContaining(after, id).Some?
      && after[FirstContaining(after, id).value] == FileName(b, id, ContentExt)
  {
  }
}
