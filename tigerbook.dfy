/**
 * The Tigerbook side (main.py): the local image path of a NetID, the
 * lookup that saves a student's portrait at most once, and the assembly of
 * the flash-card deck's notes and media list.
 *
 * The network is abstract: `Services` holds the API answer for a NetID,
 * the image answer for a URL, and the default image URL of a NetID. The
 * image directory is the map `AssetStore.files` from path to bytes.
 */
module Tigerbook {
  import opened Wrappers
  import opened Text

  /** The JSON object the Tigerbook API returns for a student, with text values. */
  type Data = map<string, string>

  newtype byte = b: int | 0 <= b < 256

  type Bytes = seq<byte>

  const IMG_DIR: string := ""

  /** The card template's field reference, used as a file name for template NetIDs. */
  const NETID_FIELD: string := "{{Netid}}"

  /** The media file added to every package besides the students' images. */
  const EXTRA_MEDIA: string := "al38.jpeg"

  // =====================================================================
  // tigerbook_imgpath
  // =====================================================================

  function Extension(jpeg: bool): string {
    if jpeg then "jpeg" else "png"
  }

  /** The NetID is used as a file name: it is given, non-empty and holds no `{{`. */
  predicate IsRealNetid(netid: Option<string>) {
    netid.Some? && netid.value != "" && !Contains(netid.value, "{{")
  }

  function ImgPath(netid: Option<string>, jpeg: bool): (path: string) {
    var name := if IsRealNetid(netid) then Lower(netid.value) else NETID_FIELD;
    IMG_DIR + name + "." + Extension(jpeg)
  }

  /** A real NetID gives the lower-cased NetID with the chosen extension. */
  lemma ImgPathOfRealNetid(netid: string, jpeg: bool)
    requires netid != "" && !Contains(netid, "{{")
    ensures ImgPath(Some(netid), jpeg) == IMG_DIR + Lower(netid) + "." + Extension(jpeg)
  {
  }

  /** A missing or empty NetID, or one holding `{{`, gives the template reference. */
  lemma ImgPathOfTemplate(netid: Option<string>, jpeg: bool)
    requires netid.None? || netid.value == "" || Contains(netid.value, "{{")
    ensures ImgPath(netid, jpeg) == IMG_DIR + "{{Netid}}." + Extension(jpeg)
  {
  }

  /** The card templates' image source (main.py lines 65 and 70). */
  lemma TemplateImagePath()
    ensures ImgPath(Some("{{Netid}}"), true) == "{{Netid}}.jpeg"
  {
    assert StartsWith("{{Netid}}", "{{");
  }

  /** The path ends in `.jpeg` exactly when `jpeg` is set, and in `.png` otherwise. */
  lemma ImgPathExtension(netid: Option<string>, jpeg: bool)
    ensures EndsWith(ImgPath(netid, jpeg), ".jpeg") <==> jpeg
    ensures EndsWith(ImgPath(netid, jpeg), ".png") <==> !jpeg
  {
    var path := ImgPath(netid, jpeg);
    var stem := IMG_DIR + (if IsRealNetid(netid) then Lower(netid.value) else NETID_FIELD);
    assert path == stem + "." + Extension(jpeg);
    if jpeg {
      assert path[|path| - 5..] == ".jpeg";
      assert path[|path| - 4..] == "jpeg";
    } else {
      assert path[|path| - 4..] == ".png";
      if |path| >= 5 {
        assert path[|path| - 4] == '.';
        assert path[|path| - 5..][1] == path[|path| - 4];
      }
    }
  }

  /** Only the lower-cased NetID matters: the path ignores the case of the NetID. */
  lemma ImgPathIgnoresCase(netid: string, jpeg: bool)
    ensures ImgPath(Some(netid), jpeg) == ImgPath(Some(Lower(netid)), jpeg)
  {
    LowerKeepsBraces(netid);
    LowerIdempotent(netid);
  }

  /** The path of a real NetID has no upper-case letter. */
  lemma ImgPathIsLowerCase(netid: string, jpeg: bool)
    requires netid != "" && !Contains(netid, "{{")
    ensures forall i :: 0 <= i < |ImgPath(Some(netid), jpeg)| ==> !IsUpper(ImgPath(Some(netid), jpeg)[i])
  {
    var path := ImgPath(Some(netid), jpeg);
    var name := Lower(netid);
    assert path == name + ("." + Extension(jpeg));
    forall i | 0 <= i < |path| ensures !IsUpper(path[i]) {
      if i >= |name| {
        assert path[i] == ("." + Extension(jpeg))[i - |name|];
      }
    }
  }

  // =====================================================================
  // tigerbook_lookup
  // =====================================================================

  /** An HTTP answer: whether it is ok, and its payload. */
  datatype Response<T> = Response(ok: bool, body: T)

  datatype Services = Services(
    api: string -> Response<Data>,      // GET of the API URL of a NetID
    image: string -> Response<Bytes>,   // GET of an image URL
    defaultImageUrl: string -> string)  // the image URL built from a NetID

  /** What the lookup returns: the API data, or `None` when the API answer is not ok. */
  function Resolved(netid: string, svc: Services): Option<Data> {
    var r := svc.api(netid);
    if r.ok then Some(r.body) else None
  }

  /** The portrait URL: the data's `photo_link`, or the default URL of the NetID. */
  function ImageUrl(data: Data, netid: string, svc: Services): string {
    if "photo_link" in data then data["photo_link"] else svc.defaultImageUrl(netid)
  }

  /**
   * The write-once save: the image is stored when it was fetched and no
   * file is at the path yet. An existing file is never replaced and no
   * other file changes.
   */
  function SaveOnce(files: map<string, Bytes>, path: string, image: Response<Bytes>): (r: map<string, Bytes>)
    ensures path in files ==> r == files
    ensures !image.ok ==> r == files
    ensures r.Keys == files.Keys + (if image.ok then {path} else {})
    ensures forall q :: q in files ==> r[q] == files[q]
    ensures path in r && path !in files ==> r[path] == image.body
  {
    if image.ok && path !in files then files[path := image.body] else files
  }

  /** Saving a second time at a path that already has a file changes nothing. */
  lemma SaveOnceIsWriteOnce(files: map<string, Bytes>, path: string, first: Response<Bytes>, second: Response<Bytes>)
    requires path in SaveOnce(files, path, first)
    ensures SaveOnce(SaveOnce(files, path, first), path, second) == SaveOnce(files, path, first)
  {
  }

  /** The files after looking up `netid`: unchanged unless the API answered. */
  function LookupEffect(files: map<string, Bytes>, netid: string, svc: Services): map<string, Bytes> {
    match Resolved(netid, svc)
    case None => files
    case Some(data) => SaveOnce(files, ImgPath(Some(netid), false), svc.image(ImageUrl(data, netid, svc)))
  }

  /** The image directory the program writes to. */
  class AssetStore {
    var files: map<string, Bytes>

    constructor (initial: map<string, Bytes>)
      ensures files == initial
    {
      files := initial;
    }

    /**
     * `tigerbook_lookup`: `None` when the API answer is not ok, and then no
     * file is written; otherwise the API data, whatever happens to the
     * image, which is saved under the NetID's `.png` path only if it was
     * fetched and no file is there yet.
     */
    method Lookup(netid: string, svc: Services) returns (info: Option<Data>)
      modifies this
      ensures info == Resolved(netid, svc)
      ensures info.None? ==> files == old(files)
      ensures info.Some? ==> info.value == svc.api(netid).body
      ensures info.Some? ==>
        files == SaveOnce(old(files), ImgPath(Some(netid), false), svc.image(ImageUrl(info.value, netid, svc)))
      ensures files == LookupEffect(old(files), netid, svc)
    {
      var r := svc.api(netid);
      if !r.ok {
        return None;
      }
      var data := r.body;
      var image := svc.image(ImageUrl(data, netid, svc));
      var path := ImgPath(Some(netid), false);
      if image.ok && path !in files {
        files := files[path := image.body];
      }
      return Some(data);
    }
  }

  // =====================================================================
  // create_deck
  // =====================================================================

  /** A card's fields: the student's full name and NetID. */
  datatype Note = Note(name: string, netId: string)

  /** The notes, or the KeyError of the student at index `at` whose data lacks `field`. */
  datatype NotesResult = Notes(notes: seq<Note>) | MissingField(at: nat, field: string)

  /** The notes the loop adds for `students`, in order. */
  function NotesFor(students: seq<string>, svc: Services): NotesResult
    decreases |students|
  {
    if students == [] then Notes([])
    else
      var n := |students| - 1;
      match NotesFor(students[..n], svc)
      case MissingField(at, f) => MissingField(at, f)
      case Notes(ns) =>
        match Resolved(students[n], svc)
        case None => Notes(ns)
        case Some(data) =>
          if "full_name" !in data then MissingField(n, "full_name")
          else if "net_id" !in data then MissingField(n, "net_id")
          else Notes(ns + [Note(data["full_name"], data["net_id"])])
  }

  /** The positions of the students whose lookup is not `None`, in increasing order. */
  function ResolvedIndices(students: seq<string>, svc: Services): (ix: seq<nat>)
    ensures forall k :: 0 <= k < |ix| ==> ix[k] < |students|
    ensures forall k, l :: 0 <= k < l < |ix| ==> ix[k] < ix[l]
    ensures forall j :: 0 <= j < |students| ==> (j in ix <==> Resolved(students[j], svc).Some?)
  {
    if students == [] then []
    else
      var n := |students| - 1;
      var init := ResolvedIndices(students[..n], svc);
      assert forall j :: 0 <= j < n ==> students[..n][j] == students[j];
      if Resolved(students[n], svc).Some? then init + [n] else init
  }

  /**
   * The notes are, in order, those of exactly the students whose lookup is
   * not `None`: one note per resolved student, with its full name and NetID.
   */
  lemma {:induction false} NotesForResolvedStudents(students: seq<string>, svc: Services)
    requires NotesFor(students, svc).Notes?
    ensures var ns, ix := NotesFor(students, svc).notes, ResolvedIndices(students, svc);
      && |ns| == |ix|
      && forall k :: 0 <= k < |ns| ==>
           var data := Resolved(students[ix[k]], svc).value;
           "full_name" in data && "net_id" in data && ns[k] == Note(data["full_name"], data["net_id"])
  {
    if students != [] {
      var n := |students| - 1;
      var init := students[..n];
      NotesForResolvedStudents(init, svc);
      assert forall j :: 0 <= j < n ==> init[j] == students[j];
    }
  }

  /**
   * A KeyError names a resolved student whose data lacks the field, the
   * full name being read first; every student before it had its note built.
   */
  lemma {:induction false} NotesForMissingField(students: seq<string>, svc: Services)
    requires NotesFor(students, svc).MissingField?
    ensures var e := NotesFor(students, svc);
      && e.at < |students|
      && Resolved(students[e.at], svc).Some?
      && e.field !in Resolved(students[e.at], svc).value
      && (e.field == "full_name" || (e.field == "net_id" && "full_name" in Resolved(students[e.at], svc).value))
      && NotesFor(students[..e.at], svc).Notes?
  {
    var n := |students| - 1;
    var init := students[..n];
    if NotesFor(init, svc).MissingField? {
      NotesForMissingField(init, svc);
      var at := NotesFor(init, svc).at;
      assert init[..at] == students[..at];
    } else {
      assert students[..n] == init;
    }
  }

  /** Once a prefix of the students ends in a KeyError, so does the whole list, with the same error. */
  lemma {:induction false} NotesForErrorSticks(students: seq<string>, n: nat, svc: Services)
    requires n <= |students| && NotesFor(students[..n], svc).MissingField?
    ensures NotesFor(students, svc) == NotesFor(students[..n], svc)
  {
    if n < |students| {
      var m := |students| - 1;
      assert students[..m][..n] == students[..n];
      NotesForErrorSticks(students[..m], n, svc);
    } else {
      assert students[..n] == students;
    }
  }

  /** The image directory after looking up every student in order. */
  function SaveAll(files: map<string, Bytes>, students: seq<string>, svc: Services): map<string, Bytes>
    decreases |students|
  {
    if students == [] then files
    else
      var n := |students| - 1;
      LookupEffect(SaveAll(files, students[..n], svc), students[n], svc)
  }

  /** A file that was there before the deck is built is still there, with the same bytes. */
  lemma {:induction false} SaveAllKeepsExisting(files: map<string, Bytes>, students: seq<string>, svc: Services, p: string)
    requires p in files
    ensures p in SaveAll(files, students, svc) && SaveAll(files, students, svc)[p] == files[p]
  {
    if students != [] {
      SaveAllKeepsExisting(files, students[..|students| - 1], svc, p);
    }
  }

  /**
   * Every new file is the `.png` path of a resolved student, holding that
   * student's fetched portrait.
   */
  lemma {:induction false} SaveAllWritesOnlyStudentImages(files: map<string, Bytes>, students: seq<string>, svc: Services, p: string)
    requires p in SaveAll(files, students, svc) && p !in files
    ensures exists i ::
      (&& 0 <= i < |students|
       && p == ImgPath(Some(students[i]), false)
       && Resolved(students[i], svc).Some?
       && SaveAll(files, students, svc)[p] == svc.image(ImageUrl(Resolved(students[i], svc).value, students[i], svc)).body)
  {
    var n := |students| - 1;
    var init := students[..n];
    var before := SaveAll(files, init, svc);
    if p in before {
      SaveAllWritesOnlyStudentImages(files, init, svc, p);
      var i :| 0 <= i < |init| && p == ImgPath(Some(init[i]), false)
        && Resolved(init[i], svc).Some?
        && before[p] == svc.image(ImageUrl(Resolved(init[i], svc).value, init[i], svc)).body;
      assert init[i] == students[i];
    } else {
      assert p == ImgPath(Some(students[n]), false);
    }
  }

  /** A resolved student whose portrait was fetched has a file at its `.png` path afterwards. */
  lemma {:induction false} SaveAllStoresFetchedImages(files: map<string, Bytes>, students: seq<string>, svc: Services, i: nat)
    requires i < |students| && Resolved(students[i], svc).Some?
    requires svc.image(ImageUrl(Resolved(students[i], svc).value, students[i], svc)).ok
    ensures ImgPath(Some(students[i]), false) in SaveAll(files, students, svc)
  {
    var n := |students| - 1;
    var init := students[..n];
    if i < n {
      assert init[i] == students[i];
      SaveAllStoresFetchedImages(files, init, svc, i);
    }
  }

  /** The image paths of the students, one per student, in order. */
  function ImagePaths(students: seq<string>): (paths: seq<string>)
    ensures |paths| == |students|
    ensures forall i :: 0 <= i < |students| ==> paths[i] == ImgPath(Some(students[i]), false)
  {
    if students == [] then [] else [ImgPath(Some(students[0]), false)] + ImagePaths(students[1..])
  }

  /**
   * The package's media list: the image path of every input student, in
   * order and unresolved students included, then the extra media file.
   */
  function MediaList(students: seq<string>): (media: seq<string>)
    ensures |media| == |students| + 1
    ensures forall i :: 0 <= i < |students| ==> media[i] == ImgPath(Some(students[i]), false)
    ensures media[|students|] == EXTRA_MEDIA
  {
    ImagePaths(students) + [EXTRA_MEDIA]
  }

  /** What `create_deck` puts in the package, or the KeyError that stops it. */
  datatype Deck = Deck(notes: seq<Note>, media: seq<string>) | DeckKeyError(at: nat, field: string)

  /**
   * `create_deck`: looks up every student in order, adds a note for each
   * one whose lookup is not `None`, and lists the media files. A KeyError
   * stops it after the lookup of the student concerned.
   */
  method CreateDeck(store: AssetStore, students: seq<string>, svc: Services) returns (deck: Deck)
    modifies store
    ensures NotesFor(students, svc).Notes? ==>
      && deck == Deck(NotesFor(students, svc).notes, MediaList(students))
      && store.files == SaveAll(old(store.files), students, svc)
    ensures NotesFor(students, svc).MissingField? ==>
      var e := NotesFor(students, svc);
      && e.at < |students|
      && deck == DeckKeyError(e.at, e.field)
      && store.files == SaveAll(old(store.files), students[..e.at + 1], svc)
  {
    var notes: seq<Note> := [];
    for i := 0 to |students|
      invariant store.files == SaveAll(old(store.files), students[..i], svc)
      invariant NotesFor(students[..i], svc) == Notes(notes)
    {
      var student := students[i];
      var info := store.Lookup(student, svc);
      assert students[..i + 1][..i] == students[..i];
      if info.None? {
        continue;
      }
      var data := info.value;
      if "full_name" !in data {
        NotesForErrorSticks(students, i + 1, svc);
        return DeckKeyError(i, "full_name");
      }
      if "net_id" !in data {
        NotesForErrorSticks(students, i + 1, svc);
        return DeckKeyError(i, "net_id");
      }
      notes := notes + [Note(data["full_name"], data["net_id"])];
    }
    assert students[..|students|] == students;
    return Deck(notes, MediaList(students));
  }
}
