/**
 * The file field of a stored form submission (`SubmittedFileField`):
 * which files a submission refers to, read from the draft stage and
 * memoised per record ID; the download links of those files; the HTML
 * shown in reports, with one branch per kind of viewer; and the CSV export
 * value and the list of file names.
 *
 * The file store, the versioning engine, the permission checks and URL
 * resolution are services this field calls; they are given to the model
 * as the oracle record `Env`, and the ambient reading mode of the
 * versioning engine as the object `Versioning`.
 */
module SubmittedFiles {
  import opened Wrappers
  import opened PhpStrings
  import opened PhpArray
  import opened Html

  /** The versioning engine's reading mode: a stage, or a point in the archive. */
  datatype ReadingMode = Draft | Live | Archive(date: string)

  /** A stored file, as far as this field looks at it. */
  datatype File = File(id: int, name: string, assetExists: bool)

  /** A logged-in member of the CMS. */
  datatype Member = Member(id: int)

  /**
   * The services the field calls:
   * - `relatedFileIDs(mode, recordID)`: the IDs of the record's many-many `UploadedFiles`;
   * - `byIDs(mode, ids)`, `byID(mode, id)`: the file store's lookups;
   * - `getURL(file, grant)`: the file's URL, `null` when it has none;
   * - `canView(file)`: the permission check for the current user;
   * - `currentUser`: the logged-in member, if any;
   * - `absoluteURL(url)`: the fully qualified form of a URL;
   * - `translate(key, default)`: the `_t` lookup, which yields `default` in
   *   the English locale.
   * The lookups take the reading mode they run under.
   */
  datatype Env = Env(
    relatedFileIDs: (ReadingMode, int) -> seq<int>,
    byIDs: (ReadingMode, seq<int>) -> seq<File>,
    byID: (ReadingMode, int) -> Option<File>,
    getURL: (File, bool) -> Option<string>,
    canView: File -> bool,
    currentUser: Option<Member>,
    absoluteURL: string -> string,
    translate: (string, string) -> string)

  /** The ambient reading mode of the versioning engine, shared by every query. */
  class Versioning {
    var mode: ReadingMode

    constructor (mode: ReadingMode)
      ensures this.mode == mode
    {
      this.mode := mode;
    }
  }

  // ---------------------------------------------------------------------
  // Resolution
  // ---------------------------------------------------------------------

  /**
   * The files a record refers to, read under `mode`: the many-many set
   * when it is non-empty, otherwise the legacy single file when the store
   * finds it, otherwise `null`.
   */
  function Resolve(env: Env, mode: ReadingMode, recordID: int, uploadedFileID: int): (r: Option<seq<File>>)
    ensures env.relatedFileIDs(mode, recordID) != [] ==>
              r == Some(env.byIDs(mode, env.relatedFileIDs(mode, recordID)))
    ensures env.relatedFileIDs(mode, recordID) == [] ==>
              (r.Some? <==> env.byID(mode, uploadedFileID).Some?)
    ensures env.relatedFileIDs(mode, recordID) == [] && r.Some? ==>
              r.value == [env.byID(mode, uploadedFileID).value]
  {
    var ids := env.relatedFileIDs(mode, recordID);
    if ids != [] then Some(env.byIDs(mode, ids))
    else match env.byID(mode, uploadedFileID)
      case Some(file) => Some([file])
      case None => None
  }

  /** When the many-many set is non-empty, the legacy file ID plays no part. */
  lemma LegacyFileIgnored(env: Env, mode: ReadingMode, recordID: int, legacyA: int, legacyB: int)
    requires env.relatedFileIDs(mode, recordID) != []
    ensures Resolve(env, mode, recordID, legacyA) == Resolve(env, mode, recordID, legacyB)
  {
  }

  // ---------------------------------------------------------------------
  // Links
  // ---------------------------------------------------------------------

  /** A file gets a link when it exists and its URL under `grant` is truthy. */
  predicate Linkable(env: Env, grant: bool, f: File)
  {
    f.assetExists && env.getURL(f, grant).Some? && Truthy(env.getURL(f, grant).value)
  }

  /** Two linkable files with the same URL under `grant` get the same absolute link. */
  lemma LinkOfDependsOnURL(env: Env, grant: bool, f: File, g: File)
    requires Linkable(env, grant, f) && Linkable(env, grant, g)
    requires env.getURL(f, grant) == env.getURL(g, grant)
    ensures LinkOf(env, grant, f) == LinkOf(env, grant, g)
  {
  }

  /** A missing asset, a `null` URL or a falsy URL gives no link; a link needs an existing asset and a URL. */
  lemma LinkableCases(env: Env, grant: bool, f: File)
    ensures Linkable(env, grant, f) ==> f.assetExists && env.getURL(f, grant).Some?
    ensures !f.assetExists || env.getURL(f, grant) == None ==> !Linkable(env, grant, f)
    ensures env.getURL(f, grant) == Some("") || env.getURL(f, grant) == Some("0") ==> !Linkable(env, grant, f)
  {
  }

  /** The absolute form of a linkable file's URL. */
  function LinkOf(env: Env, grant: bool, f: File): string
    requires Linkable(env, grant, f)
  {
    env.absoluteURL(env.getURL(f, grant).value)
  }

  /** One step of the `array_reduce` in `getLinks`. */
  function LinkStep(env: Env, grant: bool, links: Entries<string>, f: File): (r: Entries<string>)
    ensures !Linkable(env, grant, f) ==> r == links
    ensures |r| <= |links| + 1
  {
    if Linkable(env, grant, f) then Put(links, f.id, LinkOf(env, grant, f)) else links
  }

  /**
   * One step of the reduce stores the file's absolute URL under its ID when
   * the file is linkable, and leaves every other key, and a file that is not
   * linkable, as it was.
   */
  lemma LinkStepEffect(env: Env, grant: bool, links: Entries<string>, f: File, k: int)
    ensures Lookup(LinkStep(env, grant, links, f), k)
            == if Linkable(env, grant, f) && k == f.id then Some(LinkOf(env, grant, f)) else Lookup(links, k)
    ensures Keys(LinkStep(env, grant, links, f))
            == if Linkable(env, grant, f) && f.id !in Keys(links) then Keys(links) + [f.id] else Keys(links)
  {
    if Linkable(env, grant, f) {
      LookupPut(links, f.id, LinkOf(env, grant, f), k);
    }
  }

  /** A step of the reduce never creates a duplicate key. */
  lemma LinkStepKeepsKeysDistinct(env: Env, grant: bool, links: Entries<string>, f: File)
    requires DistinctKeys(links)
    ensures DistinctKeys(LinkStep(env, grant, links, f))
  {
    if Linkable(env, grant, f) {
      PutKeepsKeysDistinct(links, f.id, LinkOf(env, grant, f));
    }
  }

  /** The `array_reduce` of `getLinks`, from `[]`, over the files in order. */
  function ReduceLinks(env: Env, grant: bool, fs: seq<File>): (r: Entries<string>)
    ensures DistinctKeys(r)
    decreases |fs|
  {
    if fs == [] then []
    else
      var prev := ReduceLinks(env, grant, fs[..|fs| - 1]);
      LinkStepKeepsKeysDistinct(env, grant, prev, fs[|fs| - 1]);
      LinkStep(env, grant, prev, fs[|fs| - 1])
  }

  /** The reduce over one more file is one more step of the callback. */
  lemma ReduceLinksStep(env: Env, grant: bool, fs: seq<File>, i: nat)
    requires i < |fs|
    ensures ReduceLinks(env, grant, fs[..i + 1]) == LinkStep(env, grant, ReduceLinks(env, grant, fs[..i]), fs[i])
  {
    assert fs[..i + 1][..i] == fs[..i];
    assert fs[..i + 1][i] == fs[i];
  }

  /** What `getLinks($grant)` returns for a resolution: `null` when nothing was resolved. */
  function LinksFor(env: Env, grant: bool, files: Option<seq<File>>): (r: Option<Entries<string>>)
    ensures r.None? <==> files.None? || files.value == []
  {
    if files.None? || files.value == [] then None else Some(ReduceLinks(env, grant, files.value))
  }

  /** No two files share an ID (a database query returns each row once). */
  predicate UniqueIds(fs: seq<File>) {
    forall i, j :: 0 <= i < j < |fs| ==> fs[i].id != fs[j].id
  }

  /** Reference definition: one entry per linkable file, in order. */
  function LinkEntries(env: Env, grant: bool, fs: seq<File>): Entries<string> {
    if fs == [] then []
    else
      (if Linkable(env, grant, fs[0]) then [(fs[0].id, LinkOf(env, grant, fs[0]))] else [])
      + LinkEntries(env, grant, fs[1..])
  }

  /** `getLinks` has a key for an ID exactly when some file with that ID is linkable. */
  /** Some file with ID `k` is linkable. */
  predicate SomeLinkable(env: Env, grant: bool, fs: seq<File>, k: int) {
    exists i :: 0 <= i < |fs| && fs[i].id == k && Linkable(env, grant, fs[i])
  }

  /** A linkable file with ID `k` is among the earlier files or is the last one. */
  lemma SomeLinkableSnoc(env: Env, grant: bool, fs: seq<File>, k: int)
    requires fs != []
    ensures SomeLinkable(env, grant, fs, k) <==>
              SomeLinkable(env, grant, fs[..|fs| - 1], k) || (fs[|fs| - 1].id == k && Linkable(env, grant, fs[|fs| - 1]))
  {
    var init := fs[..|fs| - 1];
    if SomeLinkable(env, grant, fs, k) {
      var i :| 0 <= i < |fs| && fs[i].id == k && Linkable(env, grant, fs[i]);
      if i < |fs| - 1 {
        assert init[i] == fs[i];
      }
    }
    if SomeLinkable(env, grant, init, k) {
      var i :| 0 <= i < |init| && init[i].id == k && Linkable(env, grant, init[i]);
      assert fs[i] == init[i];
    }
  }

  /** `getLinks` has a key for an ID exactly when some file with that ID is linkable. */
  lemma {:induction false} ReduceLinksKeys(env: Env, grant: bool, fs: seq<File>, k: int)
    ensures k in Keys(ReduceLinks(env, grant, fs)) <==>
              exists i :: 0 <= i < |fs| && fs[i].id == k && Linkable(env, grant, fs[i])
    decreases |fs|
  {
    if fs != [] {
      var n := |fs| - 1;
      var init, last := fs[..n], fs[n];
      ReduceLinksKeys(env, grant, init, k);
      ReduceLinksStep(env, grant, fs, n);
      assert fs[..n + 1] == fs;
      var prev := ReduceLinks(env, grant, init);
      LinkStepEffect(env, grant, prev, last, k);
      assert k in Keys(ReduceLinks(env, grant, fs)) <==> k in Keys(prev) || (Linkable(env, grant, last) && k == last.id);
      SomeLinkableSnoc(env, grant, fs, k);
      assert SomeLinkable(env, grant, fs, k) <==> SomeLinkable(env, grant, init, k) || (last.id == k && Linkable(env, grant, last));
    }
  }

  lemma {:induction false} LinkEntriesSnoc(env: Env, grant: bool, fs: seq<File>, f: File)
    ensures LinkEntries(env, grant, fs + [f]) ==
              LinkEntries(env, grant, fs) + (if Linkable(env, grant, f) then [(f.id, LinkOf(env, grant, f))] else [])
  {
    if fs == [] {
      assert [f] + [] == [f];
      assert ([f])[1..] == [];
    } else {
      assert (fs + [f])[1..] == fs[1..] + [f];
      LinkEntriesSnoc(env, grant, fs[1..], f);
    }
  }

  /** An ID that no file carries gets no entry. */
  lemma {:induction false} LinkEntriesKeyAbsent(env: Env, grant: bool, fs: seq<File>, k: int)
    requires forall i :: 0 <= i < |fs| ==> fs[i].id != k
    ensures k !in Keys(LinkEntries(env, grant, fs))
  {
    if fs != [] {
      var head := if Linkable(env, grant, fs[0]) then [(fs[0].id, LinkOf(env, grant, fs[0]))] else [];
      var tail := LinkEntries(env, grant, fs[1..]);
      forall i | 0 <= i < |fs[1..]| ensures fs[1..][i].id != k {
        assert fs[1..][i] == fs[i + 1];
      }
      LinkEntriesKeyAbsent(env, grant, fs[1..], k);
      assert LinkEntries(env, grant, fs) == head + tail;
      KeysConcat(head, tail);
      assert k !in Keys(head);
    }
  }

  /** With unique IDs, `getLinks` keeps exactly the linkable files, in resolution order. */
  lemma {:induction false} ReduceLinksInOrder(env: Env, grant: bool, fs: seq<File>)
    requires UniqueIds(fs)
    ensures ReduceLinks(env, grant, fs) == LinkEntries(env, grant, fs)
    decreases |fs|
  {
    if fs != [] {
      var n := |fs| - 1;
      var init, last := fs[..n], fs[n];
      assert init + [last] == fs;
      assert UniqueIds(init) by {
        forall i, j | 0 <= i < j < |init| ensures init[i].id != init[j].id {
          assert init[i] == fs[i] && init[j] == fs[j];
        }
      }
      ReduceLinksInOrder(env, grant, init);
      forall i | 0 <= i < |init| ensures init[i].id != last.id {
        assert init[i] == fs[i];
      }
      LinkEntriesKeyAbsent(env, grant, init, last.id);
      LinkEntriesSnoc(env, grant, init, last);
      ReduceLinksStep(env, grant, fs, n);
      assert fs[..n + 1] == fs;
      var prev := LinkEntries(env, grant, init);
      assert ReduceLinks(env, grant, fs) == LinkStep(env, grant, prev, last);
      if Linkable(env, grant, last) {
        assert LinkStep(env, grant, prev, last) == prev + [(last.id, LinkOf(env, grant, last))];
      }
    }
  }

  /** The files after the first keep their IDs unique and differ from the first one's. */
  lemma UniqueIdsTail(fs: seq<File>)
    requires UniqueIds(fs) && fs != []
    ensures UniqueIds(fs[1..])
    ensures forall j :: 0 <= j < |fs[1..]| ==> fs[1..][j].id != fs[0].id
  {
    forall j | 0 <= j < |fs[1..]| ensures fs[1..][j].id != fs[0].id {
      assert fs[1..][j] == fs[j + 1];
    }
  }

  /** With unique IDs, a file's entry in `getLinks` is its link exactly when it is linkable. */
  lemma {:induction false} LookupLinkEntries(env: Env, grant: bool, fs: seq<File>, i: nat)
    requires UniqueIds(fs) && i < |fs|
    ensures Lookup(LinkEntries(env, grant, fs), fs[i].id) ==
              if Linkable(env, grant, fs[i]) then Some(LinkOf(env, grant, fs[i])) else None
  {
    var tail := LinkEntries(env, grant, fs[1..]);
    var e := LinkEntries(env, grant, fs);
    UniqueIdsTail(fs);
    if i > 0 {
      var k := fs[i].id;
      assert fs[1..][i - 1] == fs[i];
      LookupLinkEntries(env, grant, fs[1..], i - 1);
      assert fs[0].id != k;
      if Linkable(env, grant, fs[0]) {
        assert e == [(fs[0].id, LinkOf(env, grant, fs[0]))] + tail;
        assert e[1..] == tail;
      } else {
        assert e == tail;
      }
    } else if !Linkable(env, grant, fs[0]) {
      LinkEntriesKeyAbsent(env, grant, fs[1..], fs[0].id);
      assert e == tail;
    }
  }

  // ---------------------------------------------------------------------
  // Report HTML
  // ---------------------------------------------------------------------

  /** The three kinds of viewer `getFormattedValue` tells apart, per file. */
  datatype Access = CanView | LoggedInWithoutRights | NotLoggedIn

  /** Rights to view come first; without them, being logged in decides the message. */
  function AccessOf(env: Env, f: File): (a: Access)
    ensures a == CanView <==> env.canView(f)
    ensures a == LoggedInWithoutRights <==> !env.canView(f) && env.currentUser.Some?
    ensures a == NotLoggedIn <==> !env.canView(f) && env.currentUser.None?
  {
    if env.canView(f) then CanView
    else if env.currentUser.Some? then LoggedInWithoutRights
    else NotLoggedIn
  }

  // The translation keys and their English defaults.
  const DownloadFileKey := "SilverStripe\\UserForms\\Model\\Submission\\SubmittedFileField.DOWNLOADFILE"
  const DownloadFileDefault := "Download File"
  const InsufficientRightsKey := "SilverStripe\\UserForms\\Model\\Submission\\SubmittedFileField.INSUFFICIENTRIGHTS"
  const InsufficientRightsDefault := "You don't have the right permissions to download this file"
  const LoggedInKey := "SilverStripe\\UserForms\\Model\\Submission\\SubmittedFileField.YOUMUSTBELOGGEDIN"
  const LoggedInDefault := "You must be logged in to view this file"

  const LockIcon := "<i class=\"icon font-icon-lock\"></i>"

  /** The translated texts a fragment may carry. */
  datatype Messages = Messages(downloadFile: string, insufficientRights: string, mustBeLoggedIn: string)

  /** `CachedOrResolved` is the cached entry for the field's ID when there is one, and else the draft-stage resolution. */
  lemma CachedOrResolvedCases(field: SubmittedFileField, env: Env)
    ensures field.id in field.uploadedFilesCache ==> field.CachedOrResolved(env) == field.uploadedFilesCache[field.id]
    ensures field.id !in field.uploadedFilesCache ==>
              field.CachedOrResolved(env) == Resolve(env, Draft, field.id, field.uploadedFileID)
  {
  }

  /** The three `_t` lookups, each with its English default. */
  function MessagesOf(env: Env): Messages {
    Messages(env.translate(DownloadFileKey, DownloadFileDefault),
             env.translate(InsufficientRightsKey, InsufficientRightsDefault),
             env.translate(LoggedInKey, LoggedInDefault))
  }

  /** The HTML fragment for one file, with every interpolated string escaped. */
  function Fragment(msgs: Messages, name: string, link: string, access: Access): string {
    match access
    case CanView =>
      HtmlSpecialChars(name) + " - <a href=\"" + HtmlSpecialChars(link) + "\" target=\"_blank\">"
      + HtmlSpecialChars(msgs.downloadFile) + "</a>"
    case LoggedInWithoutRights =>
      LockIcon + " " + HtmlSpecialChars(name) + " - <em>" + HtmlSpecialChars(msgs.insufficientRights) + "</em>"
    case NotLoggedIn =>
      HtmlSpecialChars(name) + " - <a href=\"" + HtmlSpecialChars(link) + "\" target=\"_blank\">"
      + HtmlSpecialChars(msgs.downloadFile) + "</a> - <em>" + HtmlSpecialChars(msgs.mustBeLoggedIn) + "</em>"
  }

  /** The fragments one file adds: none unless `$links[$file->ID]` is truthy. */
  function FragmentFor(env: Env, links: Entries<string>, f: File): seq<string> {
    match Lookup(links, f.id)
    case Some(link) => if Truthy(link) then [Fragment(MessagesOf(env), f.name, link, AccessOf(env, f))] else []
    case None => []
  }

  /** The `$values` that the loop of `getFormattedValue` collects over the files in order. */
  function FragmentsOf(env: Env, links: Entries<string>, fs: seq<File>): seq<string>
    decreases |fs|
  {
    if fs == [] then []
    else FragmentsOf(env, links, fs[..|fs| - 1]) + FragmentFor(env, links, fs[|fs| - 1])
  }

  /**
   * A logged-in viewer without rights gets the lock icon, a space and the
   * escaped name; every other viewer gets the escaped name and the start of
   * a link to the escaped URL.
   */
  lemma FragmentStarts(msgs: Messages, name: string, link: string, access: Access)
    ensures access == LoggedInWithoutRights ==> LockIcon + " " + HtmlSpecialChars(name) <= Fragment(msgs, name, link, access)
    ensures access != LoggedInWithoutRights ==>
              HtmlSpecialChars(name) + " - <a href=\"" + HtmlSpecialChars(link) + "\"" <= Fragment(msgs, name, link, access)
  {
  }

  /** A file adds at most one fragment, and one exactly when its entry in `links` is present and truthy. */
  lemma FragmentForCases(env: Env, links: Entries<string>, f: File)
    ensures |FragmentFor(env, links, f)| <= 1
    ensures |FragmentFor(env, links, f)| == 1 <==> Lookup(links, f.id).Some? && Truthy(Lookup(links, f.id).value)
  {
  }

  /** The loop collects at most one fragment per file. */
  lemma {:induction false} FragmentsOfAtMostOnePerFile(env: Env, links: Entries<string>, fs: seq<File>)
    ensures |FragmentsOf(env, links, fs)| <= |fs|
    decreases |fs|
  {
    if fs != [] {
      FragmentsOfAtMostOnePerFile(env, links, fs[..|fs| - 1]);
      FragmentForCases(env, links, fs[|fs| - 1]);
    }
  }

  /** When no translation is registered, the messages are the English defaults. */
  lemma MessagesDefaults(env: Env)
    requires forall key, default :: env.translate(key, default) == default
    ensures MessagesOf(env) == Messages(DownloadFileDefault, InsufficientRightsDefault, LoggedInDefault)
  {
  }

  /** One more file: its fragment, built from its entry in `links`, follows the earlier ones when that entry is truthy. */
  lemma FragmentsOfStep(env: Env, links: Entries<string>, fs: seq<File>, i: nat, link: string)
    requires i < |fs|
    requires link == Lookup(links, fs[i].id).GetOr("")
    ensures FragmentsOf(env, links, fs[..i + 1]) == FragmentsOf(env, links, fs[..i])
              + if Truthy(link) then [Fragment(MessagesOf(env), fs[i].name, link, AccessOf(env, fs[i]))] else []
  {
    assert fs[..i + 1][..i] == fs[..i];
    assert fs[..i + 1][i] == fs[i];
    assert FragmentsOf(env, links, fs[..i + 1]) == FragmentsOf(env, links, fs[..i]) + FragmentFor(env, links, fs[i]);
    FragmentForLink(env, links, fs[i], link);
  }

  /** The fragments of one file, in terms of `$links[$file->ID] ?? ''`. */
  lemma FragmentForLink(env: Env, links: Entries<string>, f: File, link: string)
    requires link == Lookup(links, f.id).GetOr("")
    ensures FragmentFor(env, links, f) == if Truthy(link) then [Fragment(MessagesOf(env), f.name, link, AccessOf(env, f))] else []
  {
  }

  /**
   * The loop of `getFormattedValue` over the resolved files: one fragment
   * per file whose entry in `links` is truthy, in order, with the viewer's
   * three cases written out as in the source.
   */
  method CollectFragments(env: Env, links: Entries<string>, fs: seq<File>) returns (values: seq<string>)
    ensures values == FragmentsOf(env, links, fs)
  {
    var title := env.translate(DownloadFileKey, DownloadFileDefault);
    values := [];
    var i := 0;
    while i < |fs|
      invariant 0 <= i <= |fs|
      invariant values == FragmentsOf(env, links, fs[..i])
    {
      var file := fs[i];
      var link := Lookup(links, file.id).GetOr("");
      FragmentsOfStep(env, links, fs, i, link);
      ghost var before := values;
      if Truthy(link) {
        var name := file.name;
        var fragment;
        if !env.canView(file) {
          if env.currentUser.Some? {
            var message := env.translate(InsufficientRightsKey, InsufficientRightsDefault);
            fragment := LockIcon + " " + HtmlSpecialChars(name) + " - <em>"
                        + HtmlSpecialChars(message) + "</em>";
            assert AccessOf(env, file) == LoggedInWithoutRights;
            assert AccessOf(env, file) == LoggedInWithoutRights;
          assert fragment == Fragment(MessagesOf(env), name, link, LoggedInWithoutRights);
          } else {
            var message := env.translate(LoggedInKey, LoggedInDefault);
            fragment := HtmlSpecialChars(name) + " - <a href=\"" + HtmlSpecialChars(link)
                        + "\" target=\"_blank\">" + HtmlSpecialChars(title) + "</a> - <em>"
                        + HtmlSpecialChars(message) + "</em>";
            assert AccessOf(env, file) == NotLoggedIn;
            assert AccessOf(env, file) == NotLoggedIn;
          assert fragment == Fragment(MessagesOf(env), name, link, NotLoggedIn);
          }
        } else {
          fragment := HtmlSpecialChars(name) + " - <a href=\"" + HtmlSpecialChars(link)
                      + "\" target=\"_blank\">" + HtmlSpecialChars(title) + "</a>";
          assert AccessOf(env, file) == CanView;
          assert fragment == Fragment(MessagesOf(env), name, link, CanView);
        }
        values := values + [fragment];
      }
      assert values == before + if Truthy(link) then [Fragment(MessagesOf(env), file.name, link, AccessOf(env, file))] else [];
      i := i + 1;
    }
    assert fs[..|fs|] == fs;
  }

  /** `false`, or the HTML text of the report cell. */
  datatype FormattedValue = NoValue | HtmlText(html: string)

  /** What `getFormattedValue` returns for a resolution and the links built from it. */
  function FormattedValueOf(env: Env, files: Option<seq<File>>, links: Option<Entries<string>>): (r: FormattedValue)
    ensures links.None? ==> r == NoValue
    ensures r.HtmlText? ==> FragmentsOf(env, links.value, files.GetOr([])) != []
  {
    if links.None? || links.value == [] then NoValue
    else
      var fragments := FragmentsOf(env, links.value, files.GetOr([]));
      if fragments == [] then NoValue else HtmlText(Implode("<br>", fragments))
  }

  /** A file is shown in the report when its ungranted link exists and is truthy. */
  predicate Shown(env: Env, f: File) {
    Linkable(env, false, f) && Truthy(LinkOf(env, false, f))
  }

  /** Reference definition: one fragment per shown file, in resolution order. */
  function ShownFragments(env: Env, fs: seq<File>): seq<string> {
    if fs == [] then []
    else
      (if Shown(env, fs[0]) then [Fragment(MessagesOf(env), fs[0].name, LinkOf(env, false, fs[0]), AccessOf(env, fs[0]))] else [])
      + ShownFragments(env, fs[1..])
  }

  lemma {:induction false} ShownFragmentsSnoc(env: Env, fs: seq<File>, f: File)
    ensures ShownFragments(env, fs + [f]) ==
              ShownFragments(env, fs) + (if Shown(env, f) then [Fragment(MessagesOf(env), f.name, LinkOf(env, false, f), AccessOf(env, f))] else [])
  {
    if fs == [] {
      assert ([f])[1..] == [];
    } else {
      var ys := fs + [f];
      assert ys[0] == fs[0];
      assert ys[1..] == fs[1..] + [f];
      ShownFragmentsSnoc(env, fs[1..], f);
    }
  }

  lemma FragmentForAgree(env: Env, links: Entries<string>, f: File)
    requires Lookup(links, f.id) == if Linkable(env, false, f) then Some(LinkOf(env, false, f)) else None
    ensures FragmentFor(env, links, f) ==
              if Shown(env, f) then [Fragment(MessagesOf(env), f.name, LinkOf(env, false, f), AccessOf(env, f))] else []
  {
  }

  /** Links that agree with the reference on every file give the reference fragments. */
  lemma {:induction false} FragmentsOfAgree(env: Env, links: Entries<string>, fs: seq<File>)
    requires forall i :: 0 <= i < |fs| ==>
               Lookup(links, fs[i].id) == if Linkable(env, false, fs[i]) then Some(LinkOf(env, false, fs[i])) else None
    ensures FragmentsOf(env, links, fs) == ShownFragments(env, fs)
    decreases |fs|
  {
    if fs != [] {
      var init, last := fs[..|fs| - 1], fs[|fs| - 1];
      assert forall i :: 0 <= i < |init| ==> init[i] == fs[i];
      assert init + [last] == fs;
      assert FragmentsOf(env, links, fs) == FragmentsOf(env, links, init) + FragmentFor(env, links, last);
      FragmentsOfAgree(env, links, init);
      FragmentForAgree(env, links, last);
      ShownFragmentsSnoc(env, init, last);
    }
  }

  /** Without links no file yields a fragment. */
  lemma {:induction false} FragmentsOfNoLinks(env: Env, fs: seq<File>)
    ensures FragmentsOf(env, [], fs) == []
    decreases |fs|
  {
    if fs != [] {
      FragmentsOfNoLinks(env, fs[..|fs| - 1]);
    }
  }

  /**
   * The report cell for resolved files with unique IDs: one fragment per
   * shown file in resolution order, joined with `<br>`, and `false` when no
   * file is shown.
   */
  lemma FormattedValueShowsLinkedFiles(env: Env, fs: seq<File>)
    requires UniqueIds(fs)
    ensures var shown := ShownFragments(env, fs);
            FormattedValueOf(env, Some(fs), LinksFor(env, false, Some(fs))) ==
              if shown == [] then NoValue else HtmlText(Implode("<br>", shown))
  {
    if fs != [] {
      var links := ReduceLinks(env, false, fs);
      ReduceLinksInOrder(env, false, fs);
      forall i | 0 <= i < |fs|
        ensures Lookup(links, fs[i].id) ==
                  if Linkable(env, false, fs[i]) then Some(LinkOf(env, false, fs[i])) else None
      {
        LookupLinkEntries(env, false, fs, i);
      }
      FragmentsOfAgree(env, links, fs);
      if links == [] {
        FragmentsOfNoLinks(env, fs);
      }
    }
  }

  /** A logged-in viewer without rights never gets the link: the fragment does not depend on it. */
  lemma LockedFragmentHidesLink(msgs: Messages, name: string, link: string, other: string)
    ensures Fragment(msgs, name, link, LoggedInWithoutRights) == Fragment(msgs, name, other, LoggedInWithoutRights)
  {
  }

  /** Markup of a template with three markup-free pieces spliced in before `a`, `b` and `c`. */
  lemma {:induction false} SplicedMarkup(x: string, a: string, y: string, b: string, z: string, c: string)
    requires Markup(x) == [] && Markup(y) == [] && Markup(z) == []
    ensures Markup(x + a + y + b + z + c) == Markup(a) + Markup(b) + Markup(c)
  {
    MarkupConcat(x + a + y + b + z, c);
    MarkupConcat(x + a + y + b, z);
    MarkupConcat(x + a + y, b);
    MarkupConcat(x + a, y);
    MarkupConcat(x, a);
  }

  /** Markup of a template with two markup-free pieces spliced in after `a` and `b`. */
  lemma {:induction false} SplicedAfterMarkup(a: string, x: string, b: string, y: string, c: string)
    requires Markup(x) == [] && Markup(y) == []
    ensures Markup(a + x + b + y + c) == Markup(a) + Markup(b) + Markup(c)
  {
    MarkupConcat(a + x + b + y, c);
    MarkupConcat(a + x + b, y);
    MarkupConcat(a + x, b);
    MarkupConcat(a, x);
  }

  /** The same with four pieces, for the anonymous viewer's fragment. */
  lemma {:induction false} SplicedFourMarkup(x: string, a: string, y: string, b: string, z: string, c: string, w: string, d: string)
    requires Markup(x) == [] && Markup(y) == [] && Markup(z) == [] && Markup(w) == []
    ensures Markup(x + a + y + b + z + c + w + d) == Markup(a) + Markup(b) + Markup(c) + Markup(d)
  {
    MarkupConcat(x + a + y + b + z + c + w, d);
    MarkupConcat(x + a + y + b + z + c, w);
    SplicedMarkup(x, a, y, b, z, c);
  }

  lemma CanViewMarkup(msgs: Messages, name: string, link: string)
    ensures Markup(Fragment(msgs, name, link, CanView)) == Markup(Fragment(Messages("", "", ""), "", "", CanView))
  {
    MarkupOfEscaped(name);
    MarkupOfEscaped(link);
    MarkupOfEscaped(msgs.downloadFile);
    MarkupOfEscaped("");
    var a, b, c := " - <a href=\"", "\" target=\"_blank\">", "</a>";
    SplicedMarkup(HtmlSpecialChars(name), a, HtmlSpecialChars(link), b, HtmlSpecialChars(msgs.downloadFile), c);
    SplicedMarkup(HtmlSpecialChars(""), a, HtmlSpecialChars(""), b, HtmlSpecialChars(""), c);
  }

  lemma LockedMarkup(msgs: Messages, name: string, link: string)
    ensures Markup(Fragment(msgs, name, link, LoggedInWithoutRights)) ==
              Markup(Fragment(Messages("", "", ""), "", "", LoggedInWithoutRights))
  {
    MarkupOfEscaped(name);
    MarkupOfEscaped(msgs.insufficientRights);
    MarkupOfEscaped("");
    var a, b, c := LockIcon + " ", " - <em>", "</em>";
    SplicedAfterMarkup(a, HtmlSpecialChars(name), b, HtmlSpecialChars(msgs.insufficientRights), c);
    SplicedAfterMarkup(a, HtmlSpecialChars(""), b, HtmlSpecialChars(""), c);
  }

  lemma NotLoggedInMarkup(msgs: Messages, name: string, link: string)
    ensures Markup(Fragment(msgs, name, link, NotLoggedIn)) == Markup(Fragment(Messages("", "", ""), "", "", NotLoggedIn))
  {
    MarkupOfEscaped(name);
    MarkupOfEscaped(link);
    MarkupOfEscaped(msgs.downloadFile);
    MarkupOfEscaped(msgs.mustBeLoggedIn);
    MarkupOfEscaped("");
    var a, b, c, d := " - <a href=\"", "\" target=\"_blank\">", "</a> - <em>", "</em>";
    SplicedFourMarkup(HtmlSpecialChars(name), a, HtmlSpecialChars(link), b,
                      HtmlSpecialChars(msgs.downloadFile), c, HtmlSpecialChars(msgs.mustBeLoggedIn), d);
    var e := HtmlSpecialChars("");
    SplicedFourMarkup(e, a, e, b, e, c, e, d);
  }

  /**
   * The markup characters (`<`, `>`, `"`, `'`) of a fragment are those of
   * its template: no file name, link or translated message adds or breaks
   * a tag or an attribute.
   */
  lemma FragmentMarkupIsTemplate(msgs: Messages, name: string, link: string, access: Access)
    ensures Markup(Fragment(msgs, name, link, access)) == Markup(Fragment(Messages("", "", ""), "", "", access))
  {
    match access
    case CanView => CanViewMarkup(msgs, name, link);
    case LoggedInWithoutRights => LockedMarkup(msgs, name, link);
    case NotLoggedIn => NotLoggedInMarkup(msgs, name, link);
  }

  // ---------------------------------------------------------------------
  // Export and file names
  // ---------------------------------------------------------------------

  /** What `getExportValue` returns for the links: `''` unless there is at least one. */
  function ExportValueOf(links: Option<Entries<string>>): (r: string)
    ensures links.None? || links.value == [] ==> r == ""
  {
    if links.None? || links.value == [] then "" else Implode("\r", Values(links.value))
  }

  /** The export value splits back into the link values when no URL holds a carriage return. */
  lemma ExportValueSplits(links: Entries<string>)
    requires links != []
    requires forall i :: 0 <= i < |links| ==> Free('\r', links[i].1)
    ensures Split('\r', ExportValueOf(Some(links))) == Values(links)
  {
    SplitImplode('\r', Values(links));
  }

  /**
   * The export value of resolved files with unique IDs splits back into
   * the granted links of the linkable files, in resolution order, when no
   * URL holds a carriage return.
   */
  lemma ExportValueListsLinkedFiles(env: Env, fs: seq<File>)
    requires UniqueIds(fs)
    requires LinkEntries(env, true, fs) != []
    requires forall i :: 0 <= i < |LinkEntries(env, true, fs)| ==> Free('\r', LinkEntries(env, true, fs)[i].1)
    ensures Split('\r', ExportValueOf(LinksFor(env, true, Some(fs)))) == Values(LinkEntries(env, true, fs))
  {
    ReduceLinksInOrder(env, true, fs);
    ExportValueSplits(LinkEntries(env, true, fs));
  }

  /** Every file's `Name`, in order. */
  function Names(fs: seq<File>): (r: seq<string>)
    ensures |r| == |fs|
    ensures forall i :: 0 <= i < |fs| ==> r[i] == fs[i].name
  {
    if fs == [] then [] else [fs[0].name] + Names(fs[1..])
  }

  /** What `getFileNames` returns for a resolution. */
  function FileNamesOf(files: Option<seq<File>>): (r: Option<seq<string>>)
    ensures r.None? <==> files.None? || files.value == []
    ensures r.Some? ==> |r.value| == |files.value|
    ensures r.Some? ==> forall i :: 0 <= i < |r.value| ==> r.value[i] == files.value[i].name
  {
    if files.None? || files.value == [] then None else Some(Names(files.value))
  }

  /** A record with no file reference at all yields `null`, `false` and `''` everywhere. */
  lemma NoReferenceNothingShown(env: Env, recordID: int, uploadedFileID: int)
    requires env.relatedFileIDs(Draft, recordID) == [] && env.byID(Draft, uploadedFileID).None?
    ensures var files := Resolve(env, Draft, recordID, uploadedFileID);
            && files.None?
            && LinksFor(env, false, files).None? && LinksFor(env, true, files).None?
            && FormattedValueOf(env, files, LinksFor(env, false, files)) == NoValue
            && ExportValueOf(LinksFor(env, true, files)) == ""
            && FileNamesOf(files).None?
  {
  }

  // ---------------------------------------------------------------------
  // The field
  // ---------------------------------------------------------------------

  class SubmittedFileField {
    /** `$this->ID` and `$this->UploadedFileID`; the ORM may assign them. */
    var id: int
    var uploadedFileID: int
    /** `uploadedFilesCache`: record ID to the resolution stored for it, `null` included. */
    var uploadedFilesCache: map<int, Option<seq<File>>>

    constructor (id: int, uploadedFileID: int)
      ensures this.id == id && this.uploadedFileID == uploadedFileID
      ensures uploadedFilesCache == map[]
    {
      this.id := id;
      this.uploadedFileID := uploadedFileID;
      uploadedFilesCache := map[];
    }

    /** What resolution yields now: the stored value on a hit, a draft-stage resolution otherwise. */
    /** What resolution returns now: the cached entry for `id`, or else the draft-stage lookup. */
    function CachedOrResolved(env: Env): Option<seq<File>>
      reads this
    {
      if id in uploadedFilesCache then uploadedFilesCache[id]
      else Resolve(env, Draft, id, uploadedFileID)
    }

    /**
     * `getUploadedFilesFromDraft`: answers from the cache when it holds the
     * record ID, and otherwise resolves under the draft stage, stores the
     * result and restores the reading mode found on entry.
     */
    method GetUploadedFilesFromDraft(env: Env, versioning: Versioning) returns (files: Option<seq<File>>)
      modifies this`uploadedFilesCache, versioning
      ensures old(id in uploadedFilesCache) ==> files == old(uploadedFilesCache[id])
      ensures old(id !in uploadedFilesCache) ==> files == Resolve(env, Draft, id, uploadedFileID)
      ensures uploadedFilesCache == old(uploadedFilesCache)[id := files]
      ensures versioning.mode == old(versioning.mode)
    {
      if id in uploadedFilesCache {
        files := uploadedFilesCache[id];
        return;
      }
      var fileId := uploadedFileID;
      // Versioned::withVersionedMode: remember the mode, restore it on the way out.
      var saved := versioning.mode;
      versioning.mode := Draft;
      var ids := env.relatedFileIDs(versioning.mode, id);
      if ids != [] {
        files := Some(env.byIDs(versioning.mode, ids));
      } else {
        var file := env.byID(versioning.mode, fileId);
        files := if file.Some? then Some([file.value]) else None;
      }
      uploadedFilesCache := uploadedFilesCache[id := files];
      versioning.mode := saved;
    }

    /** `getLinks($grant)`: the absolute URL of every linkable resolved file, keyed by file ID. */
    method GetLinks(env: Env, versioning: Versioning, grant: bool := true) returns (links: Option<Entries<string>>)
      modifies this`uploadedFilesCache, versioning
      ensures links == LinksFor(env, grant, old(CachedOrResolved(env)))
      ensures uploadedFilesCache == old(uploadedFilesCache)[id := old(CachedOrResolved(env))]
      ensures versioning.mode == old(versioning.mode)
    {
      var files := GetUploadedFilesFromDraft(env, versioning);
      if files.None? || files.value == [] {
        return None;
      }
      var fs := files.value;
      var acc: Entries<string> := [];
      var i := 0;
      while i < |fs|
        invariant 0 <= i <= |fs|
        invariant acc == ReduceLinks(env, grant, fs[..i])
        modifies {}
      {
        var file := fs[i];
        ReduceLinksStep(env, grant, fs, i);
        ghost var before := acc;
        if file.assetExists {
          var url := env.getURL(file, grant);
          if url.Some? && Truthy(url.value) {
            assert LinkOf(env, grant, file) == env.absoluteURL(url.value);
            acc := Put(acc, file.id, env.absoluteURL(url.value));
          }
        }
        assert acc == LinkStep(env, grant, before, file);
        i := i + 1;
      }
      assert fs[..|fs|] == fs;
      links := Some(acc);
    }

    /** `getFormattedValue`: the report cell, built from the ungranted links. */
    method GetFormattedValue(env: Env, versioning: Versioning) returns (value: FormattedValue)
      modifies this`uploadedFilesCache, versioning
      ensures value == FormattedValueOf(env, old(CachedOrResolved(env)), LinksFor(env, false, old(CachedOrResolved(env))))
      ensures uploadedFilesCache == old(uploadedFilesCache)[id := old(CachedOrResolved(env))]
      ensures versioning.mode == old(versioning.mode)
    {
      var values: seq<string> := [];
      var links := GetLinks(env, versioning, false);
      if links.Some? && links.value != [] {
        var files := GetUploadedFilesFromDraft(env, versioning);
        values := CollectFragments(env, links.value, files.GetOr([]));
      }
      value := if values != [] then HtmlText(Implode("<br>", values)) else NoValue;
    }

    /** `getExportValue`: the granted links' URLs joined by carriage returns, or `''`. */
    method GetExportValue(env: Env, versioning: Versioning) returns (value: string)
      modifies this`uploadedFilesCache, versioning
      ensures value == ExportValueOf(LinksFor(env, true, old(CachedOrResolved(env))))
      ensures uploadedFilesCache == old(uploadedFilesCache)[id := old(CachedOrResolved(env))]
      ensures versioning.mode == old(versioning.mode)
    {
      var links := GetLinks(env, versioning);
      value := if links.Some? && links.value != [] then Implode("\r", Values(links.value)) else "";
    }

    /** `getFileNames`: the resolved files' names in order, or `null`. */
    method GetFileNames(env: Env, versioning: Versioning) returns (names: Option<seq<string>>)
      modifies this`uploadedFilesCache, versioning
      ensures names == FileNamesOf(old(CachedOrResolved(env)))
      ensures uploadedFilesCache == old(uploadedFilesCache)[id := old(CachedOrResolved(env))]
      ensures versioning.mode == old(versioning.mode)
    {
      var files := GetUploadedFilesFromDraft(env, versioning);
      if files.Some? && files.value != [] {
        var fs := files.value;
        var mapped := seq(|fs|, i requires 0 <= i < |fs| => fs[i].name);
        assert mapped == Names(fs);
        names := Some(mapped);
      } else {
        names := None;
      }
    }
  }

  /**
   * Memoisation seen from a caller: a second resolution returns what the
   * first stored, even when the file store has changed in between.
   */
  method ResolveTwice(field: SubmittedFileField, before: Env, after: Env, versioning: Versioning)
    returns (first: Option<seq<File>>, second: Option<seq<File>>)
    modifies field`uploadedFilesCache, versioning
    ensures first == old(field.CachedOrResolved(before))
    ensures second == first
    ensures versioning.mode == old(versioning.mode)
  {
    first := field.GetUploadedFilesFromDraft(before, versioning);
    second := field.GetUploadedFilesFromDraft(after, versioning);
  }
}
