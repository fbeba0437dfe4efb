/**
 * The song library of the application component: the song list, the
 * active selection, the resolution of the current song and version, and
 * one method per event handler.
 */
module Library {
  import opened Wrappers
  import opened Types
  import opened Text
  import opened Sorting

  // ---------------------------------------------------------- ids and lookups

  /** The id of a song, and of a version: songs and versions are both looked
      up, mapped and filtered by id, through the generic functions below. */
  function SongId(s: Song): Id {
    s.id
  }

  function VersionId(v: Version): Id {
    v.id
  }

  /** `xs.find(x => x.id === id)`, as the index of the first match. */
  function FindId<T>(xs: seq<T>, idOf: T -> Id, id: Option<Id>): (k: Option<nat>)
    ensures k.Some? ==> k.value < |xs| && Some(idOf(xs[k.value])) == id
    ensures k.Some? ==> forall j :: 0 <= j < k.value ==> Some(idOf(xs[j])) != id
    ensures k.None? ==> forall j :: 0 <= j < |xs| ==> Some(idOf(xs[j])) != id
  {
    if xs == [] then None
    else if Some(idOf(xs[0])) == id then Some(0)
    else match FindId(xs[1..], idOf, id)
      case None => None
      case Some(k) => Some(k + 1)
  }

  function CreatedAt(v: Version): int {
    v.createdAt
  }

  function UpdatedAt(s: Song): int {
    s.updatedAt
  }

  /** `versions.sort((a, b) => b.createdAt - a.createdAt)[0]`: the first of
      the versions created last. */
  function Latest(vs: seq<Version>): (v: Version)
    requires vs != []
    ensures v in vs && forall u :: u in vs ==> u.createdAt <= v.createdAt
    ensures v == vs[MaxIndex(vs, CreatedAt)]
  {
    SortDescHead(vs, CreatedAt);
    SortDesc(vs, CreatedAt)[0]
  }

  /** The display order of the song list: most recently updated first, ties
      in stored order (`songs.sort((a, b) => b.updatedAt - a.updatedAt)`). */
  function DisplayOrder(songs: seq<Song>): (r: seq<Song>)
    ensures forall i, j :: 0 <= i < j < |r| ==> r[i].updatedAt >= r[j].updatedAt
    ensures multiset(r) == multiset(songs)
  {
    SortDesc(songs, UpdatedAt)
  }

  /** Songs updated at the same time are listed in their stored order. */
  lemma DisplayOrderStable(songs: seq<Song>, t: int)
    ensures WithKey(DisplayOrder(songs), UpdatedAt, t) == WithKey(songs, UpdatedAt, t)
  {
    SortDescStable(songs, UpdatedAt, t);
  }

  /** The positions of the current song and version. */
  datatype Selection = Selection(song: Option<nat>, version: Option<nat>)

  /** The memoised resolution: the first song with the active song id; in it
      the version with the active version id, failing that a version with
      maximal `createdAt`, and none when the song has no version. */
  function Resolve(songs: seq<Song>, activeSongId: Option<Id>, activeVersionId: Option<Id>): (c: Selection)
    ensures c.song == FindId(songs, SongId, activeSongId)
    ensures c.song.None? ==> c.version.None?
    ensures c.song.Some? ==>
      var vs := songs[c.song.value].versions;
      && (c.version.Some? ==> c.version.value < |vs|)
      && (FindId(vs, VersionId, activeVersionId).Some? ==> c.version == FindId(vs, VersionId, activeVersionId))
      && (FindId(vs, VersionId, activeVersionId).None? ==>
            (c.version.None? <==> vs == []) &&
            (c.version.Some? ==> forall u :: u in vs ==> u.createdAt <= vs[c.version.value].createdAt))
  {
    match FindId(songs, SongId, activeSongId)
    case None => Selection(None, None)
    case Some(i) =>
      var vs := songs[i].versions;
      match FindId(vs, VersionId, activeVersionId)
      case Some(j) => Selection(Some(i), Some(j))
      case None =>
        if vs == [] then Selection(Some(i), None)
        else Selection(Some(i), Some(MaxIndex(vs, CreatedAt)))
  }

  /** The guard of the rename editors: the trimmed input, or nothing when it is blank. */
  function SubmittedName(input: string): (r: Option<string>)
    ensures r.Some? <==> !IsBlank(input)
    ensures r.Some? ==> r.value == Trim(input) && r.value != [] && IsTrimmed(r.value)
  {
    TrimEmpty(input);
    TrimSpec(input);
    if Trim(input) != [] then Some(Trim(input)) else None
  }

  // ---------------------------------------------------- list transforms

  /** `xs.map(x => x.id === id ? f(x) : x)`. */
  function MapId<T>(xs: seq<T>, idOf: T -> Id, id: Id, f: T -> T): seq<T> {
    seq(|xs|, k requires 0 <= k < |xs| => if idOf(xs[k]) == id then f(xs[k]) else xs[k])
  }

  /** `xs.filter(x => x.id !== id)`. */
  function FilterId<T>(xs: seq<T>, idOf: T -> Id, id: Id): seq<T> {
    if xs == [] then []
    else if idOf(xs[0]) == id then FilterId(xs[1..], idOf, id)
    else [xs[0]] + FilterId(xs[1..], idOf, id)
  }

  /** The filter keeps exactly the elements with another id, in their order. */
  lemma {:induction false} FilterIdSpec<T>(xs: seq<T>, idOf: T -> Id, id: Id)
    ensures forall x :: x in FilterId(xs, idOf, id) <==> x in xs && idOf(x) != id
    ensures IsSubsequence(FilterId(xs, idOf, id), xs)
  {
    if xs != [] {
      var rest := FilterId(xs[1..], idOf, id);
      FilterIdSpec(xs[1..], idOf, id);
      assert forall x :: x in xs <==> x == xs[0] || x in xs[1..];
      if idOf(xs[0]) != id {
        assert ([xs[0]] + rest)[1..] == rest;
      }
    }
  }

  // ----------------------------------------------------------- invariant

  predicate UniqueIds<T>(xs: seq<T>, idOf: T -> Id) {
    forall i, j :: 0 <= i < j < |xs| ==> idOf(xs[i]) != idOf(xs[j])
  }

  /** Every song has a version; song ids are unique, and version ids are unique within a song. */
  predicate WellFormed(songs: seq<Song>) {
    && UniqueIds(songs, SongId)
    && forall k :: 0 <= k < |songs| ==> songs[k].versions != [] && UniqueIds(songs[k].versions, VersionId)
  }

  // ------------------------------------------------------ transform laws

  /** With unique ids, a map by id changes exactly the one element with that id. */
  lemma MapIdAt<T>(xs: seq<T>, idOf: T -> Id, k: nat, f: T -> T)
    requires UniqueIds(xs, idOf) && k < |xs|
    ensures MapId(xs, idOf, idOf(xs[k]), f) == xs[k := f(xs[k])]
  {
  }

  /** A map by an id nobody has changes nothing. */
  lemma MapIdNone<T>(xs: seq<T>, idOf: T -> Id, id: Id, f: T -> T)
    requires FindId(xs, idOf, Some(id)).None?
    ensures MapId(xs, idOf, id, f) == xs
  {
  }

  /** Dropping position `k > 0` is keeping the head and dropping `k - 1` from the tail. */
  lemma Splice<T>(s: seq<T>, k: nat)
    requires 0 < k < |s|
    ensures s[..k] + s[k + 1..] == [s[0]] + (s[1..][..k - 1] + s[1..][k..])
  {
    assert s[..k] == [s[0]] + s[1..][..k - 1];
    assert s[k + 1..] == s[1..][k..];
  }

  /** With unique ids, the filter removes exactly the one element with that id, keeping the others in order. */
  lemma {:induction false} FilterIdAt<T>(xs: seq<T>, idOf: T -> Id, k: nat)
    requires UniqueIds(xs, idOf) && k < |xs|
    ensures FilterId(xs, idOf, idOf(xs[k])) == xs[..k] + xs[k + 1..]
  {
    var id := idOf(xs[k]);
    var tail := xs[1..];
    if k == 0 {
      assert forall j :: 0 <= j < |tail| ==> idOf(tail[j]) != id by {
        forall j | 0 <= j < |tail| ensures idOf(tail[j]) != id {
          assert tail[j] == xs[j + 1];
        }
      }
      FilterIdNone(tail, idOf, id);
    } else {
      assert UniqueIds(tail, idOf) by {
        forall i, j | 0 <= i < j < |tail| ensures idOf(tail[i]) != idOf(tail[j]) {
          assert tail[i] == xs[i + 1] && tail[j] == xs[j + 1];
        }
      }
      assert tail[k - 1] == xs[k];
      FilterIdAt(tail, idOf, k - 1);
      Splice(xs, k);
    }
  }

  /** A filter by an id nobody has keeps everything. */
  lemma {:induction false} FilterIdNone<T>(xs: seq<T>, idOf: T -> Id, id: Id)
    requires forall j :: 0 <= j < |xs| ==> idOf(xs[j]) != id
    ensures FilterId(xs, idOf, id) == xs
  {
    if xs != [] {
      var tail := xs[1..];
      assert forall j :: 0 <= j < |tail| ==> tail[j] == xs[j + 1];
      FilterIdNone(tail, idOf, id);
      assert xs == [xs[0]] + tail;
    }
  }

  /** Dropping one position keeps ids unique. */
  lemma RemoveUnique<T>(xs: seq<T>, idOf: T -> Id, k: nat)
    requires UniqueIds(xs, idOf) && k < |xs|
    ensures UniqueIds(xs[..k] + xs[k + 1..], idOf)
  {
  }

  /** Removing a song from a well-formed library leaves it well formed, by removing one position or none. */
  lemma SongsWithoutShape(songs: seq<Song>, id: Id)
    requires WellFormed(songs)
    ensures WellFormed(FilterId(songs, SongId, id))
    ensures FindId(songs, SongId, Some(id)).Some? ==>
      var k := FindId(songs, SongId, Some(id)).value;
      FilterId(songs, SongId, id) == songs[..k] + songs[k + 1..]
    ensures FindId(songs, SongId, Some(id)).None? ==> FilterId(songs, SongId, id) == songs
  {
    var found := FindId(songs, SongId, Some(id));
    if found.Some? {
      var k := found.value;
      FilterIdAt(songs, SongId, k);
      RemoveUnique(songs, SongId, k);
    } else {
      FilterIdNone(songs, SongId, id);
    }
  }

  /** Deleting a version from a song with several versions removes at most
      one position and leaves at least one version, with ids still unique. */
  lemma RemoveVersion(vs: seq<Version>, id: Id)
    requires UniqueIds(vs, VersionId) && |vs| > 1
    ensures var kept := FilterId(vs, VersionId, id);
      && |kept| >= 1 && UniqueIds(kept, VersionId)
      && kept == match FindId(vs, VersionId, Some(id))
           case None => vs
           case Some(j) => vs[..j] + vs[j + 1..]
  {
    match FindId(vs, VersionId, Some(id)) {
      case None => FilterIdNone(vs, VersionId, id);
      case Some(j) =>
        FilterIdAt(vs, VersionId, j);
        RemoveUnique(vs, VersionId, j);
    }
  }

  /** Replacing a song by one with the same id and well-formed versions keeps
      the library well formed and every song lookup as it was. */
  lemma ReplaceSong(songs: seq<Song>, i: nat, song: Song, sid: Option<Id>)
    requires WellFormed(songs) && i < |songs| && song.id == songs[i].id
    requires song.versions != [] && UniqueIds(song.versions, VersionId)
    ensures WellFormed(songs[i := song])
    ensures FindId(songs[i := song], SongId, sid) == FindId(songs, SongId, sid)
  {
    FindIdSameIds(songs[i := song], songs, SongId, sid);
  }

  /** Lookups by id depend on the ids alone. */
  lemma {:induction false} FindIdSameIds<T>(a: seq<T>, b: seq<T>, idOf: T -> Id, id: Option<Id>)
    requires |a| == |b| && forall k :: 0 <= k < |a| ==> idOf(a[k]) == idOf(b[k])
    ensures FindId(a, idOf, id) == FindId(b, idOf, id)
  {
    if a != [] {
      FindIdSameIds(a[1..], b[1..], idOf, id);
    }
  }

  /** The most-recent fallback depends on the creation times alone. */
  lemma {:induction false} MaxIndexSameKeys(a: seq<Version>, b: seq<Version>)
    requires a != [] && |a| == |b| && forall k :: 0 <= k < |a| ==> a[k].createdAt == b[k].createdAt
    ensures MaxIndex(a, CreatedAt) == MaxIndex(b, CreatedAt)
  {
    if |a| > 1 {
      MaxIndexSameKeys(a[1..], b[1..]);
    }
  }

  /** Editing a version in place, keeping every id and creation time, keeps the resolution. */
  lemma ResolveStable(songs: seq<Song>, i: nat, vs: seq<Version>, song: Song, sid: Option<Id>, vid: Option<Id>)
    requires i < |songs| && song.id == songs[i].id && song.versions == vs
    requires |vs| == |songs[i].versions|
    requires forall k :: 0 <= k < |vs| ==> vs[k].id == songs[i].versions[k].id && vs[k].createdAt == songs[i].versions[k].createdAt
    ensures Resolve(songs[i := song], sid, vid) == Resolve(songs, sid, vid)
  {
    FindIdSameIds(songs[i := song], songs, SongId, sid);
    FindIdSameIds(vs, songs[i].versions, VersionId, vid);
    if vs != [] {
      MaxIndexSameKeys(vs, songs[i].versions);
    }
  }

  /** With unique ids, looking up the id of an element finds that element. */
  lemma FindIdOf<T>(xs: seq<T>, idOf: T -> Id, j: nat)
    requires UniqueIds(xs, idOf) && j < |xs|
    ensures FindId(xs, idOf, Some(idOf(xs[j]))) == Some(j)
  {
  }

  /** In a well-formed library a resolved song always has a resolved version. */
  lemma ResolveDefined(songs: seq<Song>, sid: Option<Id>, vid: Option<Id>)
    requires WellFormed(songs)
    ensures Resolve(songs, sid, vid).song.Some? ==> Resolve(songs, sid, vid).version.Some?
  {
  }

  // ---------------------------------------------------------------- store

  class LibraryStore {
    var songs: seq<Song>
    var activeSongId: Option<Id>
    var activeVersionId: Option<Id>

    predicate Valid()
      reads this
    {
      WellFormed(songs)
    }

    /** The current song and version (by position). */
    function Current(): Selection
      reads this
    {
      Resolve(songs, activeSongId, activeVersionId)
    }

    /** An empty library with nothing selected. */
    constructor ()
      ensures Valid()
      ensures songs == [] && activeSongId == None && activeVersionId == None
    {
      songs := [];
      activeSongId := None;
      activeVersionId := None;
    }

    /** `selectSong`: activates the song and its most recently created version. */
    method SelectSong(songId: Id)
      requires Valid()
      modifies this
      ensures Valid() && songs == old(songs)
      ensures activeSongId == Some(songId)
      ensures FindId(songs, SongId, Some(songId)).None? ==> activeVersionId == None && Current() == Selection(None, None)
      ensures FindId(songs, SongId, Some(songId)).Some? ==>
        var i := FindId(songs, SongId, Some(songId)).value;
        && activeVersionId == Some(Latest(songs[i].versions).id)
        && Current() == Selection(Some(i), Some(MaxIndex(songs[i].versions, CreatedAt)))
    {
      activeSongId := Some(songId);
      var found := FindId(songs, SongId, Some(songId));
      if found.Some? && |songs[found.value].versions| > 0 {
        var vs := songs[found.value].versions;
        activeVersionId := Some(Latest(vs).id);
        FindIdOf(vs, VersionId, MaxIndex(vs, CreatedAt));
      } else {
        activeVersionId := None;
      }
    }

    /** `handleAddSong`: prepends "New Song" with one empty "Verse 1" and activates both.
        The ids and times are the clock readings the source takes. */
    method AddSong(songId: Id, versionId: Id, createdAt: int, updatedAt: int)
      requires Valid()
      requires forall k :: 0 <= k < |songs| ==> songs[k].id != songId
      modifies this
      ensures Valid()
      ensures songs == [Song(songId, "New Song", [Version(versionId, "Verse 1", "", createdAt)], updatedAt)] + old(songs)
      ensures activeSongId == Some(songId) && activeVersionId == Some(versionId)
      ensures Current() == Selection(Some(0), Some(0))
    {
      var newVersion := Version(versionId, "Verse 1", "", createdAt);
      var newSong := Song(songId, "New Song", [newVersion], updatedAt);
      songs := [newSong] + songs;
      activeSongId := Some(newSong.id);
      activeVersionId := Some(newVersion.id);
    }

    /** `handleRenameSong`: sets the title of the song with that id and refreshes its `updatedAt`. */
    method RenameSong(songId: Id, newTitle: string, now: int)
      requires Valid()
      modifies this
      ensures Valid()
      ensures activeSongId == old(activeSongId) && activeVersionId == old(activeVersionId)
      ensures FindId(old(songs), SongId, Some(songId)).None? ==> songs == old(songs)
      ensures FindId(old(songs), SongId, Some(songId)).Some? ==>
        var k := FindId(old(songs), SongId, Some(songId)).value;
        songs == old(songs)[k := old(songs)[k].(title := newTitle, updatedAt := now)]
    {
      var f := (s: Song) => s.(title := newTitle, updatedAt := now);
      ghost var found := FindId(songs, SongId, Some(songId));
      if found.Some? {
        MapIdAt(songs, SongId, found.value, f);
      }
      songs := MapId(songs, SongId, songId, f);
    }

    /** `SongListItem.handleSave` followed by `onRename`: a blank title is ignored, any other is trimmed. */
    method SaveSongTitle(songId: Id, input: string, now: int)
      requires Valid()
      modifies this
      ensures Valid()
      ensures activeSongId == old(activeSongId) && activeVersionId == old(activeVersionId)
      ensures IsBlank(input) ==> songs == old(songs)
      ensures !IsBlank(input) && FindId(old(songs), SongId, Some(songId)).None? ==> songs == old(songs)
      ensures !IsBlank(input) && FindId(old(songs), SongId, Some(songId)).Some? ==>
        var k := FindId(old(songs), SongId, Some(songId)).value;
        songs == old(songs)[k := old(songs)[k].(title := Trim(input), updatedAt := now)]
    {
      var name := SubmittedName(input);
      if name.Some? {
        RenameSong(songId, name.value, now);
      }
    }

    /** `handleDeleteSong`: after confirmation removes the song and, if it was
        active, clears the selection. */
    method DeleteSong(songId: Id, confirmed: bool)
      requires Valid()
      modifies this
      ensures Valid()
      ensures !confirmed ==> songs == old(songs) && activeSongId == old(activeSongId) && activeVersionId == old(activeVersionId)
      ensures confirmed ==> forall s :: s in songs <==> s in old(songs) && s.id != songId
      ensures confirmed ==> IsSubsequence(songs, old(songs))
      ensures confirmed && FindId(old(songs), SongId, Some(songId)).Some? ==>
        var k := FindId(old(songs), SongId, Some(songId)).value;
        songs == old(songs)[..k] + old(songs)[k + 1..]
      ensures confirmed && FindId(old(songs), SongId, Some(songId)).None? ==> songs == old(songs)
      ensures confirmed && old(activeSongId) == Some(songId) ==> activeSongId == None && activeVersionId == None
      ensures confirmed && old(activeSongId) != Some(songId) ==>
        activeSongId == old(activeSongId) && activeVersionId == old(activeVersionId)
    {
      if confirmed {
        SongsWithoutShape(songs, songId);
        FilterIdSpec(songs, SongId, songId);
        songs := FilterId(songs, SongId, songId);
        if activeSongId == Some(songId) {
          activeSongId := None;
          activeVersionId := None;
        }
      }
    }

    /** `handleLyricsChange`: replaces the current version's lyrics verbatim and
        refreshes its song's `updatedAt`; nothing happens without a current version. */
    method ChangeLyrics(newLyrics: string, now: int)
      requires Valid()
      modifies this
      ensures Valid()
      ensures activeSongId == old(activeSongId) && activeVersionId == old(activeVersionId)
      ensures old(Current()).version.None? ==> songs == old(songs)
      ensures old(Current()).version.Some? ==>
        var i, j := old(Current()).song.value, old(Current()).version.value;
        var vs := old(songs)[i].versions;
        songs == old(songs)[i := old(songs)[i].(updatedAt := now, versions := vs[j := vs[j].(lyrics := newLyrics)])]
      ensures Current() == old(Current())
    {
      var cur := Current();
      if cur.song.None? || cur.version.None? {
        return;
      }
      var i, j := cur.song.value, cur.version.value;
      var song, version := songs[i], songs[i].versions[j];
      var g := (v: Version) => v.(lyrics := newLyrics);
      var f := (s: Song) => s.(updatedAt := now, versions := MapId(s.versions, VersionId, version.id, g));
      MapIdAt(song.versions, VersionId, j, g);
      MapIdAt(songs, SongId, i, f);
      ResolveStable(songs, i, f(song).versions, f(song), activeSongId, activeVersionId);
      ReplaceSong(songs, i, f(song), activeSongId);
      songs := MapId(songs, SongId, song.id, f);
    }

    /** `handleVersionAdd`: appends "Version n+1" with the current version's
        lyrics to the current song and activates it. */
    method AddVersion(versionId: Id, createdAt: int, now: int)
      requires Valid()
      requires Current().song.Some? ==>
        forall v :: v in songs[Current().song.value].versions ==> v.id != versionId
      modifies this
      ensures Valid()
      ensures activeSongId == old(activeSongId)
      ensures old(Current()).song.None? ==> songs == old(songs) && activeVersionId == old(activeVersionId)
      ensures old(Current()).song.Some? ==>
        var i := old(Current()).song.value;
        var vs := old(songs)[i].versions;
        var lyrics := if old(Current()).version.Some? then vs[old(Current()).version.value].lyrics else "";
        var added := Version(versionId, "Version " + NatToString(|vs| + 1), lyrics, createdAt);
        && songs == old(songs)[i := old(songs)[i].(versions := vs + [added], updatedAt := now)]
        && |songs[i].versions| == |vs| + 1
        && activeVersionId == Some(versionId)
        && Current() == Selection(Some(i), Some(|vs|))
    {
      var cur := Current();
      if cur.song.None? {
        return;
      }
      var i := cur.song.value;
      var song := songs[i];
      var lyrics := if cur.version.Some? then song.versions[cur.version.value].lyrics else "";
      var added := Version(versionId, "Version " + NatToString(|song.versions| + 1), lyrics, createdAt);
      var f := (s: Song) => s.(versions := s.versions + [added], updatedAt := now);
      MapIdAt(songs, SongId, i, f);
      ReplaceSong(songs, i, f(song), activeSongId);
      songs := MapId(songs, SongId, song.id, f);
      activeVersionId := Some(added.id);
      FindIdSameIds(songs, old(songs), SongId, activeSongId);
      FindIdOf(songs[i].versions, VersionId, |song.versions|);
    }

    /** `handleVersionRename`: renames the version with that id in the current
        song and refreshes the song's `updatedAt` (also when no version has the id). */
    method RenameVersion(versionId: Id, newName: string, now: int)
      requires Valid()
      modifies this
      ensures Valid()
      ensures activeSongId == old(activeSongId) && activeVersionId == old(activeVersionId)
      ensures old(Current()).song.None? ==> songs == old(songs)
      ensures old(Current()).song.Some? ==>
        var i := old(Current()).song.value;
        var vs := old(songs)[i].versions;
        var renamed := match FindId(vs, VersionId, Some(versionId))
          case None => vs
          case Some(j) => vs[j := vs[j].(name := newName)];
        songs == old(songs)[i := old(songs)[i].(updatedAt := now, versions := renamed)]
      ensures Current() == old(Current())
    {
      var cur := Current();
      if cur.song.None? {
        return;
      }
      var i := cur.song.value;
      var song := songs[i];
      var g := (v: Version) => v.(name := newName);
      var f := (s: Song) => s.(updatedAt := now, versions := MapId(s.versions, VersionId, versionId, g));
      match FindId(song.versions, VersionId, Some(versionId)) {
        case None => MapIdNone(song.versions, VersionId, versionId, g);
        case Some(j) => MapIdAt(song.versions, VersionId, j, g);
      }
      MapIdAt(songs, SongId, i, f);
      ResolveStable(songs, i, f(song).versions, f(song), activeSongId, activeVersionId);
      ReplaceSong(songs, i, f(song), activeSongId);
      songs := MapId(songs, SongId, song.id, f);
    }

    /** The version-name editor's save followed by `onVersionRename`: a blank name is ignored, any other is trimmed. */
    method SaveVersionName(versionId: Id, input: string, now: int)
      requires Valid()
      modifies this
      ensures Valid()
      ensures activeSongId == old(activeSongId) && activeVersionId == old(activeVersionId)
      ensures IsBlank(input) ==> songs == old(songs)
      ensures !IsBlank(input) && old(Current()).song.None? ==> songs == old(songs)
      ensures !IsBlank(input) && old(Current()).song.Some? ==>
        var i := old(Current()).song.value;
        var vs := old(songs)[i].versions;
        var renamed := match FindId(vs, VersionId, Some(versionId))
          case None => vs
          case Some(j) => vs[j := vs[j].(name := Trim(input))];
        songs == old(songs)[i := old(songs)[i].(updatedAt := now, versions := renamed)]
    {
      var name := SubmittedName(input);
      if name.Some? {
        RenameVersion(versionId, name.value, now);
      }
    }

    /** `handleVersionDelete`: refuses when the current song has at most one
        version; after confirmation removes the version with that id and, if
        it was the active one, activates the first remaining version. */
    method DeleteVersion(versionId: Id, confirmed: bool, now: int)
      requires Valid()
      modifies this
      ensures Valid()
      ensures activeSongId == old(activeSongId)
      ensures (old(Current()).song.None? || |old(songs)[old(Current()).song.value].versions| <= 1 || !confirmed) ==>
        songs == old(songs) && activeVersionId == old(activeVersionId)
      ensures (old(Current()).song.Some? && |old(songs)[old(Current()).song.value].versions| > 1 && confirmed) ==>
        var i := old(Current()).song.value;
        var vs := old(songs)[i].versions;
        var kept := match FindId(vs, VersionId, Some(versionId))
          case None => vs
          case Some(j) => vs[..j] + vs[j + 1..];
        && |kept| >= 1
        && songs == old(songs)[i := old(songs)[i].(versions := kept, updatedAt := now)]
        && activeVersionId == (if old(activeVersionId) == Some(versionId)
                               then (if kept[0].id == "" then None else Some(kept[0].id))
                               else old(activeVersionId))
      ensures old(Current()).song.Some? ==> Current().song == old(Current()).song && Current().version.Some?
    {
      var cur := Current();
      if cur.song.None? {
        return;
      }
      ResolveDefined(songs, activeSongId, activeVersionId);
      if |songs[cur.song.value].versions| <= 1 || !confirmed {
        return;
      }
      RemoveVersion(songs[cur.song.value].versions, versionId);
      RemoveFromSong(cur.song.value, versionId, now);
    }

    /** The confirmed deletion from the current song `i`, which has several versions. */
    method RemoveFromSong(i: nat, versionId: Id, now: int)
      requires Valid() && i < |songs| && |songs[i].versions| > 1 && Current().song == Some(i)
      modifies this
      ensures Valid()
      ensures activeSongId == old(activeSongId)
      ensures var kept := FilterId(old(songs)[i].versions, VersionId, versionId);
        && |kept| >= 1
        && songs == old(songs)[i := old(songs)[i].(versions := kept, updatedAt := now)]
        && activeVersionId == (if old(activeVersionId) == Some(versionId)
                               then (if kept[0].id == "" then None else Some(kept[0].id))
                               else old(activeVersionId))
      ensures Current().song == Some(i) && Current().version.Some?
    {
      var song := songs[i];
      var kept := FilterId(song.versions, VersionId, versionId);
      RemoveVersion(song.versions, versionId);
      var newActive := activeVersionId;
      if Some(versionId) == activeVersionId {
        newActive := if kept == [] || kept[0].id == "" then None else Some(kept[0].id);
      }
      var f := (s: Song) => s.(versions := FilterId(s.versions, VersionId, versionId), updatedAt := now);
      var updated := song.(versions := kept, updatedAt := now);
      assert f(song) == updated;
      MapIdAt(songs, SongId, i, f);
      ReplaceSong(songs, i, updated, activeSongId);
      ghost var next := songs[i := updated];
      songs := MapId(songs, SongId, song.id, f);
      assert songs == next;
      activeVersionId := newActive;
      ResolveDefined(songs, activeSongId, activeVersionId);
    }
  }
}
