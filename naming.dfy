/**
 * The file naming convention of the documents directory: a note lives in a
 * file `<title>-<id>.<ext>`, and `getDocumentsPath` resolves an optional
 * file name inside the directory. Also the decoding the listing applies to a
 * file name, with what it does and does not recover.
 */
module Naming {
  import opened Outcomes
  import opened Strings

  const Delimiter: char := '-'
  /** The title every new note gets. */
  const DefaultTitle: string := "Untitled"
  /** Extension of the metadata-only file written on creation. */
  const MetadataExt: string := "json"
  /** Extension of the file written on save. */
  const ContentExt: string := "html"

  /** `${title}-${id}`: the part of a file name that identifies a saved note. */
  function SaveKey(title: string, id: string): string {
    title + [Delimiter] + id
  }

  /** `${title}-${id}.${ext}`. */
  function FileName(title: string, id: string, ext: string): (r: string)
    ensures IsPrefix(SaveKey(title, id), r)
    ensures Contains(r, SaveKey(title, id)) && Contains(r, id)
  {
    ContainsInfix([], SaveKey(title, id), "." + ext);
    ContainsInfix(title + [Delimiter], id, "." + ext);
    assert [] + SaveKey(title, id) + ("." + ext) == SaveKey(title, id) + "." + ext;
    SaveKey(title, id) + "." + ext
  }

  /** The name of the file a new note is written to. */
  function CreatedName(id: string): (r: string)
    ensures IsPrefix(SaveKey(DefaultTitle, id), r) && Contains(r, id)
  {
    FileName(DefaultTitle, id, MetadataExt)
  }

  /** What `getDocumentsPath` resolves to: the directory itself, or one file in it. */
  datatype Path = DocumentsDir | DocumentFile(name: string)

  /** `getDocumentsPath(filename)`: a missing or empty name (not truthy) means the directory. */
  function DocumentsPath(filename: Option<string>): (p: Path)
    ensures p.DocumentFile? ==> filename == Some(p.name) && p.name != []
    ensures p.DocumentsDir? ==> filename == None || filename == Some([])
  {
    match filename
    case None => DocumentsDir
    case Some(name) => if name == [] then DocumentsDir else DocumentFile(name)
  }

  /** The listed title: `file.split('-')[0]`. */
  function ListedTitle(file: string): (r: string)
    ensures IsPrefix(r, file) && Delimiter !in r
    ensures |r| == |file| || file[|r|] == Delimiter
  {
    BeforeFirst(file, Delimiter)
  }

  /** The listed id: `file.split(title)[1]`, with `title` the listed title. */
  function ListedId(file: string): (r: Option<string>)
    ensures ListedTitle(file) != [] ==> r.Some?
    ensures ListedTitle(file) == [] ==> r == if |file| >= 2 then Some([file[1]]) else None
  {
    SplitSecond(file, ListedTitle(file))
  }

  /** The text before the first `c` is the only prefix without `c` that ends at a `c` or at the end. */
  lemma BeforeFirstUnique(s: string, c: char, p: string)
    requires IsPrefix(p, s) && c !in p
    requires |p| == |s| || s[|p|] == c
    ensures BeforeFirst(s, c) == p
  {
  }

  /** The listed title of a file name is its title, provided the title has no delimiter. */
  lemma ListedTitleOfFileName(title: string, id: string, ext: string)
    requires Delimiter !in title
    ensures ListedTitle(FileName(title, id, ext)) == title
  {
    var f := FileName(title, id, ext);
    assert f[|title|] == Delimiter;
    BeforeFirstUnique(f, Delimiter, title);
  }

  /** A delimiter in the title cuts the listed title short at that delimiter. */
  lemma ListedTitleCutAtDelimiter(title: string, id: string, ext: string, k: nat)
    requires k < |title| && title[k] == Delimiter && Delimiter !in title[..k]
    ensures ListedTitle(FileName(title, id, ext)) == title[..k]
  {
    var f := FileName(title, id, ext);
    assert f[..k] == title[..k];
    BeforeFirstUnique(f, Delimiter, title[..k]);
  }

  /**
   * With a non-empty listed title, the listed id is the start of the
   * remainder after the title, and it is the whole remainder exactly
   * when the title does not occur again in that remainder.
   */
  lemma ListedIdVersusRemainder(file: string)
    requires ListedTitle(file) != []
    ensures ListedId(file).Some?
    ensures IsPrefix(ListedId(file).value, file[|ListedTitle(file)|..])
    ensures ListedId(file) == Some(file[|ListedTitle(file)|..]) <==> !Contains(file[|ListedTitle(file)|..], ListedTitle(file))
  {
    var t := ListedTitle(file);
    var rest := file[|t|..];
    if Contains(rest, t) {
      ListedIdEndsAtRecurrence(file);
      var k: nat :| OccursAt(rest, t, k) && ListedId(file) == Some(rest[..k]);
      assert |rest[..k]| < |rest|;
    } else {
      NoRecurrenceNoNext(file);
      assert OccursAt(file, t, 0);
      assert IndexOfFrom(file, t, 0) == Some(0);
      assert ListedId(file) == Some(file[|t|..]);
    }
  }

  /** Without a recurrence of the title after the prefix, `split` finds no second occurrence. */
  lemma NoRecurrenceNoNext(file: string)
    requires ListedTitle(file) != []
    requires !Contains(file[|ListedTitle(file)|..], ListedTitle(file))
    ensures IndexOfFrom(file, ListedTitle(file), |ListedTitle(file)|) == None
  {
    var t := ListedTitle(file);
    var rest := file[|t|..];
    assert file == t + rest;
    var next := IndexOfFrom(file, t, |t|);
    if next.Some? {
      OccursShift(t, rest, t, next.value - |t|);
    }
  }


  /**
   * When the title does occur again after the title prefix, the listed id
   * is the text after the prefix up to that next occurrence (exclusive).
   */
  lemma ListedIdEndsAtRecurrence(file: string)
    requires ListedTitle(file) != []
    requires Contains(file[|ListedTitle(file)|..], ListedTitle(file))
    ensures var t := ListedTitle(file); var rest := file[|t|..];
      exists k: nat :: && OccursAt(rest, t, k)
                       && (forall m :: 0 <= m < k ==> !OccursAt(rest, t, m))
                       && ListedId(file) == Some(rest[..k])
  {
    var t := ListedTitle(file);
    var rest := file[|t|..];
    assert file == t + rest;
    assert OccursAt(file, t, 0);
    assert IndexOfFrom(file, t, 0) == Some(0);
    var m0 :| 0 <= m0 <= |rest| && OccursAt(rest, t, m0);
    OccursShift(t, rest, t, m0);
    var j := IndexOfFrom(file, t, |t|).value;
    var k := j - |t|;
    OccursShift(t, rest, t, k);
    forall m | 0 <= m < k
      ensures !OccursAt(rest, t, m)
    {
      OccursShift(t, rest, t, m);
    }
    assert ListedId(file) == Some(file[|t|..j]);
    assert file[|t|..j] == rest[..k];
  }

  /**
   * Listing a file named by the convention recovers the title and, as the
   * id, `-<id>.<ext>`: the leading delimiter and the extension stay on. This
   * holds exactly when the title is non-empty, has no delimiter and does not
   * occur in `-<id>.<ext>`.
   */
  lemma ListedIdOfFileName(title: string, id: string, ext: string)
    requires title != [] && Delimiter !in title
    ensures ListedTitle(FileName(title, id, ext)) == title
    ensures ListedId(FileName(title, id, ext)) == Some([Delimiter] + id + "." + ext)
      <==> !Contains([Delimiter] + id + "." + ext, title)
  {
    var f := FileName(title, id, ext);
    ListedTitleOfFileName(title, id, ext);
    assert f[|title|..] == [Delimiter] + id + "." + ext;
    ListedIdVersusRemainder(f);
  }

  /** The characters of a `randomUUID` id: lower-case hexadecimal digits and hyphens. */
  predicate IsUuidChar(c: char) {
    '0' <= c <= '9' || 'a' <= c <= 'f' || c == '-'
  }

  /** A new note with a UUID id is listed as title `Untitled` and id `-<uuid>.json`. */
  lemma CreatedNameListing(id: string)
    requires forall c :: c in id ==> IsUuidChar(c)
    ensures ListedTitle(CreatedName(id)) == DefaultTitle
    ensures ListedId(CreatedName(id)) == Some([Delimiter] + id + "." + MetadataExt)
  {
    var rest := [Delimiter] + id + "." + MetadataExt;
    assert DefaultTitle[0] !in rest;
    AbsentFirstChar(rest, DefaultTitle);
    ListedIdOfFileName(DefaultTitle, id, MetadataExt);
  }

  /**
   * A title that occurs inside the id truncates the listed id: title `b`
   * and id `1b9d` list as id `-1`, not `-1b9d.html`.
   */
  lemma TitleInIdTruncatesListing()
    ensures ListedTitle(FileName("b", "1b9d", ContentExt)) == "b"
    ensures ListedId(FileName("b", "1b9d", ContentExt)) == Some("-1")
  {
    var f := FileName("b", "1b9d", ContentExt);
    assert f == "b-1b9d.html";
    ListedTitleOfFileName("b", "1b9d", ContentExt);
    assert OccursAt(f, "b", 0);
    assert IndexOfFrom(f, "b", 0) == Some(0);
    assert !OccursAt(f, "b", 1) && !OccursAt(f, "b", 2) && OccursAt(f, "b", 3);
    assert IndexOfFrom(f, "b", 1) == Some(3);
    assert f[1..3] == "-1";
  }

  /**
   * A name that starts with the delimiter lists with an empty title, and
   * splitting on the empty string then yields just the second character as
   * the id (nothing at all for the name `-`).
   */
  lemma EmptyTitleListing(file: string)
    requires |file| >= 1 && file[0] == Delimiter
    ensures ListedTitle(file) == []
    ensures ListedId(file) == if |file| >= 2 then Some([file[1]]) else None
  {
    BeforeFirstUnique(file, Delimiter, []);
  }
}
