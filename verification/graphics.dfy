/** `src/graphics.rs`: the rectangle arithmetic of a `Graphics` context
    (its region in signed window pixels, the renderer's clip rect in
    unsigned ones) and `FontState`, which keeps the fonts of the app's and
    the window's font collections loaded in the font database and the
    family names the database offers. */
module CushyGraphics {
  import opened Common

  datatype Point = Point(x: int, y: int)
  datatype Size = Size(width: int, height: int)
  datatype Rect = Rect(origin: Point, size: Size)

  /** A rect holds the points from its origin up to, not including, its
      far edges. */
  predicate Contains(r: Rect, p: Point)
  {
    r.origin.x <= p.x < r.origin.x + r.size.width && r.origin.y <= p.y < r.origin.y + r.size.height
  }

  predicate IsUnsigned(r: Rect)
  {
    0 <= r.origin.x && 0 <= r.origin.y && 0 <= r.size.width && 0 <= r.size.height
  }

  /** `rect + point`. */
  function Add(r: Rect, offset: Point): Rect
  {
    Rect(Point(r.origin.x + offset.x, r.origin.y + offset.y), r.size)
  }

  /** `rect - point`. */
  function Sub(r: Rect, offset: Point): Rect
  {
    Rect(Point(r.origin.x - offset.x, r.origin.y - offset.y), r.size)
  }

  /** `Rect<Px>::into_unsigned`: every component saturates at zero. */
  function IntoUnsigned(r: Rect): (u: Rect)
    ensures IsUnsigned(u)
    ensures IsUnsigned(r) ==> u == r
  {
    Rect(Point(Max(r.origin.x, 0), Max(r.origin.y, 0)), Size(Max(r.size.width, 0), Max(r.size.height, 0)))
  }

  /** `Rect::intersection`: the overlap of two rects, when it has an area. */
  function Intersection(a: Rect, b: Rect): (r: Option<Rect>)
    ensures r.Some? ==> r.value.size.width > 0 && r.value.size.height > 0
    ensures forall p :: (r.Some? && Contains(r.value, p)) <==> Contains(a, p) && Contains(b, p)
  {
    var x1 := Max(a.origin.x, b.origin.x);
    var x2 := Min(a.origin.x + a.size.width, b.origin.x + b.size.width);
    var y1 := Max(a.origin.y, b.origin.y);
    var y2 := Min(a.origin.y + a.size.height, b.origin.y + b.size.height);
    if x1 < x2 && y1 < y2 then Some(Rect(Point(x1, y1), Size(x2 - x1, y2 - y1))) else None
  }

  /** The geometry of a `Graphics` context: the region it renders to, and
      the clip rect of its renderer. */
  datatype Graphics = Graphics(region: Rect, clip: Rect)

  /** `Graphics::translation`. */
  function Translation(g: Graphics): Point
  {
    Point(g.region.origin.x - g.clip.origin.x, g.region.origin.y - g.clip.origin.y)
  }

  /** The adjustment `clipped_to` makes before intersecting in unsigned
      space: a negative origin moves to zero and the size shrinks by as
      much, so the rect keeps exactly its points that are not negative. */
  function EffectiveRegion(region: Rect): (e: Rect)
    ensures 0 <= e.origin.x && 0 <= e.origin.y
    ensures forall p :: Contains(IntoUnsigned(e), p) <==> Contains(region, p) && 0 <= p.x && 0 <= p.y
  {
    var x := if region.origin.x < 0 then 0 else region.origin.x;
    var width := if region.origin.x < 0 then region.size.width + region.origin.x else region.size.width;
    var y := if region.origin.y < 0 then 0 else region.origin.y;
    var height := if region.origin.y < 0 then region.size.height + region.origin.y else region.size.height;
    Rect(Point(x, y), Size(width, height))
  }

  /** The clip rect `clipped_to` hands the renderer, relative to the
      current clip rect: the part of the current clip that the new region
      covers, or an empty rect. */
  function NewClip(g: Graphics, clip: Rect): (c: Rect)
    requires IsUnsigned(g.clip)
    ensures IsUnsigned(c)
    ensures c.size.width <= g.clip.size.width && c.size.height <= g.clip.size.height
    ensures forall p :: Contains(Add(c, g.clip.origin), p) <==>
      Contains(g.clip, p) && Contains(Add(clip, g.region.origin), p) && 0 <= p.x && 0 <= p.y
  {
    var region := Add(clip, g.region.origin);
    match Intersection(g.clip, IntoUnsigned(EffectiveRegion(region)))
    case Some(i) =>
      assert Contains(i, i.origin) && Contains(g.clip, i.origin);
      var far := Point(i.origin.x + i.size.width - 1, i.origin.y + i.size.height - 1);
      assert Contains(i, far) && Contains(g.clip, far);
      assert Add(Sub(i, g.clip.origin), g.clip.origin) == i;
      Sub(i, g.clip.origin)
    case None => Rect(Point(0, 0), Size(0, 0))
  }

  /** `Graphics::clipped_to`: the new region is `clip` placed relative to
      the current region; the renderer's clip (interpreted relative to the
      current clip) keeps exactly the points of the current clip that the
      new region covers, so it never grows. */
  function ClippedTo(g: Graphics, clip: Rect): (r: Graphics)
    requires IsUnsigned(g.clip)
    ensures r.region == Add(clip, g.region.origin)
    ensures IsUnsigned(r.clip)
    ensures r.clip.size.width <= g.clip.size.width && r.clip.size.height <= g.clip.size.height
    ensures forall p :: Contains(r.clip, p) <==> Contains(g.clip, p) && Contains(r.region, p) && 0 <= p.x && 0 <= p.y
  {
    Graphics(Add(clip, g.region.origin), Add(NewClip(g, clip), g.clip.origin))
  }

  /** After clipping to a region that shows on screen, the translation is
      how far the region hangs off the top-left of its clip: never
      positive, and zero exactly when the region starts inside the
      current clip. */
  lemma ClippedTranslation(g: Graphics, clip: Rect)
    requires IsUnsigned(g.clip)
    requires Intersection(g.clip, IntoUnsigned(EffectiveRegion(Add(clip, g.region.origin)))).Some?
    ensures var t := Translation(ClippedTo(g, clip));
      && t.x <= 0 && t.y <= 0
      && (t.x == 0 <==> g.clip.origin.x <= clip.origin.x + g.region.origin.x)
      && (t.y == 0 <==> g.clip.origin.y <= clip.origin.y + g.region.origin.y)
  {
    var region := Add(clip, g.region.origin);
    var i := Intersection(g.clip, IntoUnsigned(EffectiveRegion(region))).value;
    assert ClippedTo(g, clip).clip == Add(Sub(i, g.clip.origin), g.clip.origin);
    assert ClippedTo(g, clip).clip.origin == i.origin;
  }

  /** `Graphics::visible_rect` as written: the clip intersected with the
      region converted to unsigned pixels directly. */
  function VisibleRectAsWritten(g: Graphics): Option<Rect>
  {
    Intersection(g.clip, IntoUnsigned(g.region))
  }

  /** A region reaching left of the window's origin has its origin clamped
      but keeps its full width, so the visible rect reported as written
      covers points outside the region. */
  lemma VisibleRectAsWrittenTooWide()
    ensures var g := Graphics(Rect(Point(-5, 0), Size(10, 10)), Rect(Point(0, 0), Size(100, 100)));
      && VisibleRectAsWritten(g).Some?
      && Contains(VisibleRectAsWritten(g).value, Point(7, 0))
      && !Contains(g.region, Point(7, 0))
  {
    var g := Graphics(Rect(Point(-5, 0), Size(10, 10)), Rect(Point(0, 0), Size(100, 100)));
    assert Contains(g.clip, Point(7, 0)) && Contains(IntoUnsigned(g.region), Point(7, 0));
  }

  /** `Graphics::visible_rect` as documented: the intersection of the
      region and the clip rect, adjusting a negative origin first as
      `clipped_to` does. */
  function VisibleRect(g: Graphics): (r: Option<Rect>)
    ensures forall p :: (r.Some? && Contains(r.value, p)) <==>
      Contains(g.clip, p) && Contains(g.region, p) && 0 <= p.x && 0 <= p.y
  {
    Intersection(g.clip, IntoUnsigned(EffectiveRegion(g.region)))
  }

  // ---- FontState ----

  type FaceId = nat
  type CollectionId = nat

  /** `cosmic_text::FamilyOwned`. */
  datatype Family = Name(name: string) | Serif | SansSerif | Cursive | Fantasy | Monospace

  /** A generic family is always available; a named one when the database
      offers it. */
  predicate Available(family: Family, fonts: map<string, nat>)
  {
    family.Name? ==> family.name in fonts
  }

  /** `FontState::find_available_font_family`: the first family of the list
      that is available. */
  function FindAvailableFontFamily(list: seq<Family>, fonts: map<string, nat>): (r: Option<Family>)
    ensures r.None? <==> forall i | 0 <= i < |list| :: !Available(list[i], fonts)
    ensures r.Some? ==> exists i | 0 <= i < |list| ::
      list[i] == r.value && Available(list[i], fonts) && forall j | 0 <= j < i :: !Available(list[j], fonts)
  {
    if list == [] then None
    else if Available(list[0], fonts) then Some(list[0])
    else
      var r := FindAvailableFontFamily(list[1..], fonts);
      assert forall i | 1 <= i < |list| :: list[i] == list[1..][i - 1];
      if r.Some? then
        var i :| && 0 <= i < |list[1..]| && list[1..][i] == r.value && Available(list[1..][i], fonts)
                 && forall j | 0 <= j < i :: !Available(list[1..][j], fonts);
        assert list[i + 1] == r.value && forall j | 0 <= j < i + 1 :: !Available(list[j], fonts);
        r
      else r
  }

  /** `FontState::apply_font_family_list`: the name handed to `apply`, when
      the family found in the list, or else the fallback, is a named one. */
  function ApplyFontFamilyList(list: seq<Family>, fallback: Option<Family>, fonts: map<string, nat>): (r: Option<string>)
    ensures r.Some? ==>
      || (Name(r.value) in list && r.value in fonts)
      || ((forall i | 0 <= i < |list| :: !Available(list[i], fonts)) && fallback == Some(Name(r.value)))
    ensures FindAvailableFontFamily(list, fonts).Some? && FindAvailableFontFamily(list, fonts).value.Name? ==> r.Some?
  {
    var found := FindAvailableFontFamily(list, fonts);
    var chosen := if found.Some? then found else fallback;
    if chosen.Some? && chosen.value.Name? then Some(chosen.value.name) else None
  }

  /** `LoadedFontId`: a font of a collection, named by the collection's
      pointer and the font's id in it. */
  datatype LoadedFontId = LoadedFontId(collection: CollectionId, font: nat)

  /** `LoadedFontIds`: the generation that last saw the font in its
      collection, and the database faces loaded for it. */
  datatype LoadedFontIds = LoadedFontIds(generation: nat, faces: seq<FaceId>)

  /** What `update_fonts` reads of a `FontCollection`: its current
      generation and its fonts. */
  datatype FontCollection = FontCollection(generation: nat, fonts: seq<LoadedFontId>)

  /** The part of the font database this model uses: its faces, each with
      its first family name when it has one. */
  class FontDatabase {
    var faces: map<FaceId, Option<string>>

    constructor(faces: map<FaceId, Option<string>>)
      ensures this.faces == faces
    {
      this.faces := faces;
    }

    /** `Database::remove_face`. */
    method RemoveFace(id: FaceId)
      modifies this
      ensures faces == old(faces) - {id}
    {
      faces := faces - {id};
    }
  }

  /** The first family names of the database's faces. */
  function FirstFamilies(faces: map<FaceId, Option<string>>): set<string>
  {
    set f | f in faces && faces[f].Some? :: faces[f].value
  }

  /** `FontState::gather_available_family_names`: every first family name
      of the database is tagged with `generation`, then every entry another
      generation tagged is dropped. */
  method GatherAvailableFamilyNames(families: map<string, nat>, generation: nat, db: FontDatabase)
      returns (r: map<string, nat>)
    ensures forall n :: n in r <==> n in FirstFamilies(db.faces) || (n in families && families[n] == generation)
    ensures forall n | n in r :: r[n] == generation
  {
    var names := FirstFamilies(db.faces);
    r := families;
    var todo := names;
    while todo != {}
      invariant todo <= names
      invariant forall n :: n in r <==> n in families || n in names - todo
      invariant forall n | n in r :: r[n] == if n in names - todo then generation else families[n]
      decreases |todo|
    {
      var n :| n in todo;
      r := r[n := generation];
      todo := todo - {n};
    }
    ghost var tagged := r;
    var keys := r.Keys;
    while keys != {}
      invariant keys <= r.Keys <= tagged.Keys
      invariant forall n | n in r :: r[n] == tagged[n]
      invariant forall n | n in tagged :: n in r <==> n in keys || tagged[n] == generation
      decreases |keys|
    {
      var n :| n in keys;
      if r[n] != generation {
        r := r - {n};
      }
      keys := keys - {n};
    }
  }

  /** Once every entry is older than `generation`, gathering leaves exactly
      the database's first family names. */
  lemma GatherFresh(families: map<string, nat>, generation: nat, faces: map<FaceId, Option<string>>, r: map<string, nat>)
    requires forall n | n in families :: families[n] < generation
    requires forall n :: n in r <==> n in FirstFamilies(faces) || (n in families && families[n] == generation)
    ensures r.Keys == FirstFamilies(faces)
  {
  }

  /** The loaded fonts after `synchronize_font_list` walks `ids`: a font
      already loaded gets the generation, a new one is loaded with the
      faces `load` gives for it. */
  function Synced(loaded: map<LoadedFontId, LoadedFontIds>, generation: nat, ids: seq<LoadedFontId>,
                  load: LoadedFontId -> seq<FaceId>): (r: map<LoadedFontId, LoadedFontIds>)
    ensures forall k :: k in r <==> k in loaded || k in ids
    ensures forall k | k in ids :: r[k].generation == generation
    ensures forall k | k in loaded && k !in ids :: r[k] == loaded[k]
    ensures forall k | k in loaded :: r[k].faces == loaded[k].faces
    ensures forall k | k in r && k !in loaded :: r[k].faces == load(k)
  {
    if ids == [] then loaded
    else
      var before := Synced(loaded, generation, ids[..|ids| - 1], load);
      var id := ids[|ids| - 1];
      assert forall k :: k in ids <==> k in ids[..|ids| - 1] || k == id by {
        assert ids == ids[..|ids| - 1] + [id];
      }
      if id in before then before[id := before[id].(generation := generation)]
      else before[id := LoadedFontIds(generation, load(id))]
  }

  /** The faces of every font loaded since `before` are in the database. */
  ghost predicate FacesLoaded(loaded: map<LoadedFontId, LoadedFontIds>, before: map<LoadedFontId, LoadedFontIds>,
                              faces: map<FaceId, Option<string>>)
  {
    forall k | k in loaded && k !in before :: forall f | f in loaded[k].faces :: f in faces
  }

  /** One more font of the collection synchronized. */
  lemma SyncedStep(loaded: map<LoadedFontId, LoadedFontIds>, generation: nat, ids: seq<LoadedFontId>, i: nat,
                   load: LoadedFontId -> seq<FaceId>)
    requires i < |ids|
    ensures var before := Synced(loaded, generation, ids[..i], load);
      Synced(loaded, generation, ids[..i + 1], load) ==
        if ids[i] in before then before[ids[i] := before[ids[i]].(generation := generation)]
        else before[ids[i] := LoadedFontIds(generation, load(ids[i]))]
  {
    assert ids[..i + 1][..i] == ids[..i];
  }

  /** A font of a collection that changed in this update. */
  predicate ChangedCollection(k: LoadedFontId, appChanged: bool, appFonts: CollectionId, windowChanged: bool, windowFonts: CollectionId)
  {
    (appChanged && k.collection == appFonts) || (windowChanged && k.collection == windowFonts)
  }

  /** A font listed by a collection that changed in this update. */
  predicate Listed(k: LoadedFontId, appChanged: bool, app: FontCollection, windowChanged: bool, window: FontCollection)
  {
    (appChanged && k in app.fonts) || (windowChanged && k in window.fonts)
  }

  /** The loaded fonts once the changed collections are synchronized, the
      app's first. */
  function SyncedChanged(loaded: map<LoadedFontId, LoadedFontIds>, generation: nat, appChanged: bool, app: FontCollection,
                         windowChanged: bool, window: FontCollection, load: LoadedFontId -> seq<FaceId>): map<LoadedFontId, LoadedFontIds>
  {
    var afterApp := if appChanged then Synced(loaded, generation, app.fonts, load) else loaded;
    if windowChanged then Synced(afterApp, generation, window.fonts, load) else afterApp
  }

  /** With every loaded font older than `generation`, synchronizing the
      changed collections marks with `generation` exactly the fonts they
      list, adds only those, and leaves every other font as it was. */
  lemma SyncedChangedFacts(loaded: map<LoadedFontId, LoadedFontIds>, generation: nat, appChanged: bool, app: FontCollection,
                           windowChanged: bool, window: FontCollection, load: LoadedFontId -> seq<FaceId>)
    requires forall k | k in loaded :: loaded[k].generation < generation
    ensures var synced := SyncedChanged(loaded, generation, appChanged, app, windowChanged, window, load);
      && (forall k :: k in synced <==> k in loaded || Listed(k, appChanged, app, windowChanged, window))
      && (forall k | k in synced :: synced[k].generation <= generation)
      && (forall k | k in synced :: synced[k].generation == generation <==> Listed(k, appChanged, app, windowChanged, window))
      && (forall k | k in loaded :: synced[k].faces == loaded[k].faces)
      && (forall k | k in loaded && !Listed(k, appChanged, app, windowChanged, window) :: synced[k] == loaded[k])
  {
  }

  /** Dropping the untouched fonts of the changed collections after
      synchronizing them leaves, among the fonts of those collections,
      exactly the ones they list, and every other font as it was. */
  lemma StaleRemovedFacts(loaded: map<LoadedFontId, LoadedFontIds>, pruned: map<LoadedFontId, LoadedFontIds>, generation: nat,
                          appChanged: bool, appFonts: CollectionId, app: FontCollection,
                          windowChanged: bool, windowFonts: CollectionId, window: FontCollection, load: LoadedFontId -> seq<FaceId>)
    requires forall k | k in loaded :: loaded[k].generation < generation
    requires forall k | k in app.fonts :: k.collection == appFonts
    requires forall k | k in window.fonts :: k.collection == windowFonts
    requires var synced := SyncedChanged(loaded, generation, appChanged, app, windowChanged, window, load);
      && (forall k :: k in pruned <==>
            (k in synced && (!ChangedCollection(k, appChanged, appFonts, windowChanged, windowFonts) || synced[k].generation == generation)))
      && (forall k | k in pruned :: pruned[k] == synced[k])
    ensures forall k | k in pruned :: pruned[k].generation <= generation
    ensures forall k | k in pruned :: k in loaded || Listed(k, appChanged, app, windowChanged, window)
    ensures forall k | ChangedCollection(k, appChanged, appFonts, windowChanged, windowFonts) ::
      k in pruned <==> Listed(k, appChanged, app, windowChanged, window)
    ensures forall k | k in loaded && !ChangedCollection(k, appChanged, appFonts, windowChanged, windowFonts) ::
      k in pruned && pruned[k] == loaded[k]
  {
    SyncedChangedFacts(loaded, generation, appChanged, app, windowChanged, window, load);
  }

  /** `FontState`. */
  class FontState {
    var appFonts: CollectionId
    var appFontGeneration: nat
    var windowFonts: CollectionId
    var windowFontGeneration: Option<nat>
    var loadedFonts: map<LoadedFontId, LoadedFontIds>
    var fontGeneration: nat
    var fonts: map<string, nat>
    var currentFontFamily: Option<seq<Family>>

    /** No loaded font and no family name carries a generation newer than
        the state's. */
    ghost predicate Valid()
      reads this
    {
      && (forall k | k in loadedFonts :: loadedFonts[k].generation <= fontGeneration)
      && (forall n | n in fonts :: fonts[n] <= fontGeneration)
    }

    /** A font whose collection changed in this update, and so is checked
        for staleness. */
    predicate FromChanged(k: LoadedFontId, appChanged: bool, windowChanged: bool)
      reads this
    {
      ChangedCollection(k, appChanged, appFonts, windowChanged, windowFonts)
    }

    /** `FontState::new`: the family names of the database at generation 0,
        then an update. The app collection's current generation is recorded
        first, so only the window's fonts are loaded; the app's are loaded
        once its generation moves. */
    constructor(db: FontDatabase, windowFonts: CollectionId, window: FontCollection,
                appFonts: CollectionId, app: FontCollection,
                load: LoadedFontId -> seq<FaceId>, faceFamily: FaceId -> Option<string>)
      requires forall k | k in window.fonts :: k.collection == windowFonts
      requires forall k | k in app.fonts :: k.collection == appFonts
      modifies db
      ensures Valid()
      ensures this.appFonts == appFonts && this.windowFonts == windowFonts
      ensures fontGeneration == 1 && currentFontFamily.None?
      ensures appFontGeneration == app.generation && windowFontGeneration == Some(window.generation)
      ensures forall k :: k in loadedFonts <==> k in window.fonts
      ensures fonts.Keys == FirstFamilies(db.faces)
    {
      var families := GatherAvailableFamilyNames(map[], 0, db);
      this.fonts := families;
      currentFontFamily := None;
      windowFontGeneration := None;
      this.windowFonts := windowFonts;
      appFontGeneration := app.generation;
      this.appFonts := appFonts;
      fontGeneration := 0;
      loadedFonts := map[];
      new;
      var _ := UpdateFonts(db, app, window, load, faceFamily);
    }

    /** `FontState::synchronize_font_list`: every font of the collection
        is marked with `generation`, and loaded into the database first when
        it is new. */
    method SynchronizeFontList(generation: nat, ids: seq<LoadedFontId>, db: FontDatabase,
                               load: LoadedFontId -> seq<FaceId>, faceFamily: FaceId -> Option<string>)
      modifies this`loadedFonts, db
      ensures loadedFonts == Synced(old(loadedFonts), generation, ids, load)
      ensures old(db.faces).Keys <= db.faces.Keys
      ensures FacesLoaded(loadedFonts, old(loadedFonts), db.faces)
    {
      var i := 0;
      while i < |ids|
        invariant 0 <= i <= |ids|
        invariant loadedFonts == Synced(old(loadedFonts), generation, ids[..i], load)
        invariant old(db.faces).Keys <= db.faces.Keys
        invariant FacesLoaded(loadedFonts, old(loadedFonts), db.faces)
      {
        SyncedStep(old(loadedFonts), generation, ids, i, load);
        SynchronizeFont(ids[i], generation, db, load, faceFamily, old(loadedFonts));
        i := i + 1;
      }
      assert ids[..i] == ids;
    }

    /** One turn of `synchronize_font_list`. */
    method SynchronizeFont(id: LoadedFontId, generation: nat, db: FontDatabase,
                           load: LoadedFontId -> seq<FaceId>, faceFamily: FaceId -> Option<string>,
                           ghost before: map<LoadedFontId, LoadedFontIds>)
      requires FacesLoaded(loadedFonts, before, db.faces)
      modifies this`loadedFonts, db
      ensures loadedFonts == if id in old(loadedFonts) then old(loadedFonts)[id := old(loadedFonts)[id].(generation := generation)]
        else old(loadedFonts)[id := LoadedFontIds(generation, load(id))]
      ensures old(db.faces).Keys <= db.faces.Keys
      ensures FacesLoaded(loadedFonts, before, db.faces)
    {
      if id in loadedFonts {
        loadedFonts := loadedFonts[id := loadedFonts[id].(generation := generation)];
      } else {
        var faces := load(id);
        db.faces := db.faces + map f | f in faces :: faceFamily(f);
        loadedFonts := loadedFonts[id := LoadedFontIds(generation, faces)];
      }
    }

    /** Removes the given faces from the database. */
    method RemoveFaces(db: FontDatabase, faces: seq<FaceId>)
      modifies db
      ensures forall f :: f in db.faces <==> f in old(db.faces) && f !in faces
      ensures forall f | f in db.faces :: db.faces[f] == old(db.faces)[f]
    {
      var i := 0;
      while i < |faces|
        invariant 0 <= i <= |faces|
        invariant forall f :: f in db.faces <==> f in old(db.faces) && f !in faces[..i]
        invariant forall f | f in db.faces :: db.faces[f] == old(db.faces)[f]
      {
        assert faces[..i + 1] == faces[..i] + [faces[i]];
        db.RemoveFace(faces[i]);
        i := i + 1;
      }
      assert faces[..i] == faces;
    }

    /** The stale-font pass of `update_fonts`: a font of a changed
        collection that this generation did not touch is dropped, and its
        faces leave the database. */
    method RemoveStaleFonts(appChanged: bool, windowChanged: bool, db: FontDatabase)
      modifies this`loadedFonts, db
      ensures forall k :: k in loadedFonts <==>
        k in old(loadedFonts) && (!FromChanged(k, appChanged, windowChanged) || old(loadedFonts)[k].generation == fontGeneration)
      ensures forall k | k in loadedFonts :: loadedFonts[k] == old(loadedFonts)[k]
      ensures forall k | k in old(loadedFonts) && k !in loadedFonts :: forall f | f in old(loadedFonts)[k].faces :: f !in db.faces
      ensures db.faces.Keys <= old(db.faces).Keys
    {
      var keys := loadedFonts.Keys;
      while keys != {}
        invariant keys <= loadedFonts.Keys <= old(loadedFonts).Keys
        invariant forall k | k in loadedFonts :: loadedFonts[k] == old(loadedFonts)[k]
        invariant forall k | k in old(loadedFonts) :: k in loadedFonts <==>
          k in keys || !FromChanged(k, appChanged, windowChanged) || old(loadedFonts)[k].generation == fontGeneration
        invariant forall k | k in old(loadedFonts) && k !in loadedFonts :: forall f | f in old(loadedFonts)[k].faces :: f !in db.faces
        invariant db.faces.Keys <= old(db.faces).Keys
        decreases |keys|
      {
        var k :| k in keys;
        if FromChanged(k, appChanged, windowChanged) && loadedFonts[k].generation != fontGeneration {
          var faces := loadedFonts[k].faces;
          loadedFonts := loadedFonts - {k};
          RemoveFaces(db, faces);
        }
        keys := keys - {k};
      }
    }

    /** `FontState::update_fonts`: when the app's or the window's collection
        moved to a new generation, the font generation steps, the changed
        collections are synchronized, their fonts that are no longer listed
        are dropped with their faces, and the family names are gathered
        again. */
    method UpdateFonts(db: FontDatabase, app: FontCollection, window: FontCollection,
                       load: LoadedFontId -> seq<FaceId>, faceFamily: FaceId -> Option<string>)
        returns (changed: bool)
      requires Valid()
      requires forall k | k in app.fonts :: k.collection == appFonts
      requires forall k | k in window.fonts :: k.collection == windowFonts
      modifies this, db
      ensures Valid()
      ensures appFonts == old(appFonts) && windowFonts == old(windowFonts) && currentFontFamily == old(currentFontFamily)
      ensures changed <==> old(appFontGeneration) != app.generation || old(windowFontGeneration) != Some(window.generation)
      ensures appFontGeneration == app.generation && windowFontGeneration == Some(window.generation)
      ensures fontGeneration == if changed then old(fontGeneration) + 1 else old(fontGeneration)
      ensures !changed ==> loadedFonts == old(loadedFonts) && fonts == old(fonts) && db.faces == old(db.faces)
      ensures var appChanged, windowChanged := old(appFontGeneration) != app.generation, old(windowFontGeneration) != Some(window.generation);
        && (forall k | k in loadedFonts :: k in old(loadedFonts) || Listed(k, appChanged, app, windowChanged, window))
        && (forall k | FromChanged(k, appChanged, windowChanged) :: k in loadedFonts <==> Listed(k, appChanged, app, windowChanged, window))
        && (forall k | k in old(loadedFonts) && !FromChanged(k, appChanged, windowChanged) :: k in loadedFonts && loadedFonts[k] == old(loadedFonts)[k])
      ensures forall k | k in old(loadedFonts) && k !in loadedFonts :: forall f | f in old(loadedFonts)[k].faces :: f !in db.faces
      ensures changed ==> fonts.Keys == FirstFamilies(db.faces) && forall n | n in fonts :: fonts[n] == fontGeneration
    {
      var newAppGeneration := app.generation;
      var appFontsChanged := appFontGeneration != newAppGeneration;
      if appFontsChanged {
        appFontGeneration := newAppGeneration;
      }
      var newWindowGeneration := window.generation;
      var windowFontsChanged := windowFontGeneration != Some(newWindowGeneration);
      if windowFontsChanged {
        windowFontGeneration := Some(newWindowGeneration);
      }
      changed := appFontsChanged || windowFontsChanged;
      if changed {
        fontGeneration := fontGeneration + 1;
        ReloadChanged(appFontsChanged, app, windowFontsChanged, window, db, load, faceFamily);
      }
    }

    /** The work `update_fonts` does once a collection changed, after the
        font generation stepped. */
    method ReloadChanged(appChanged: bool, app: FontCollection, windowChanged: bool, window: FontCollection, db: FontDatabase,
                         load: LoadedFontId -> seq<FaceId>, faceFamily: FaceId -> Option<string>)
      requires forall k | k in loadedFonts :: loadedFonts[k].generation < fontGeneration
      requires forall n | n in fonts :: fonts[n] < fontGeneration
      requires forall k | k in app.fonts :: k.collection == appFonts
      requires forall k | k in window.fonts :: k.collection == windowFonts
      modifies this`loadedFonts, this`fonts, db
      ensures Valid()
      ensures forall k | k in loadedFonts :: k in old(loadedFonts) || Listed(k, appChanged, app, windowChanged, window)
      ensures forall k | FromChanged(k, appChanged, windowChanged) :: k in loadedFonts <==> Listed(k, appChanged, app, windowChanged, window)
      ensures forall k | k in old(loadedFonts) && !FromChanged(k, appChanged, windowChanged) :: k in loadedFonts && loadedFonts[k] == old(loadedFonts)[k]
      ensures forall k | k in old(loadedFonts) && k !in loadedFonts :: forall f | f in old(loadedFonts)[k].faces :: f !in db.faces
      ensures fonts.Keys == FirstFamilies(db.faces) && forall n | n in fonts :: fonts[n] == fontGeneration
    {
      ghost var l0 := loadedFonts;
      if appChanged {
        SynchronizeFontList(fontGeneration, app.fonts, db, load, faceFamily);
      }
      if windowChanged {
        SynchronizeFontList(fontGeneration, window.fonts, db, load, faceFamily);
      }
      assert loadedFonts == SyncedChanged(l0, fontGeneration, appChanged, app, windowChanged, window, load);
      SyncedChangedFacts(l0, fontGeneration, appChanged, app, windowChanged, window, load);
      RemoveStaleFonts(appChanged, windowChanged, db);
      StaleRemovedFacts(l0, loadedFonts, fontGeneration, appChanged, appFonts, app, windowChanged, windowFonts, window, load);
      var gathered := GatherAvailableFamilyNames(fonts, fontGeneration, db);
      GatherFresh(fonts, fontGeneration, db.faces, gathered);
      fonts := gathered;
    }

    /** `FontState::next_frame`: the frame's font family is forgotten and
        the fonts are updated. */
    method NextFrame(db: FontDatabase, app: FontCollection, window: FontCollection,
                     load: LoadedFontId -> seq<FaceId>, faceFamily: FaceId -> Option<string>)
        returns (changed: bool)
      requires Valid()
      requires forall k | k in app.fonts :: k.collection == appFonts
      requires forall k | k in window.fonts :: k.collection == windowFonts
      modifies this, db
      ensures Valid() && currentFontFamily.None?
      ensures changed <==> old(appFontGeneration) != app.generation || old(windowFontGeneration) != Some(window.generation)
      ensures fontGeneration == if changed then old(fontGeneration) + 1 else old(fontGeneration)
    {
      currentFontFamily := None;
      changed := UpdateFonts(db, app, window, load, faceFamily);
    }
  }

  /** A second update with the same collection generations changes
      nothing. */
  method UpdateTwice(state: FontState, db: FontDatabase, app: FontCollection, window: FontCollection,
                     load: LoadedFontId -> seq<FaceId>, faceFamily: FaceId -> Option<string>)
      returns (second: bool)
    requires state.Valid()
    requires forall k | k in app.fonts :: k.collection == state.appFonts
    requires forall k | k in window.fonts :: k.collection == state.windowFonts
    modifies state, db
    ensures !second
  {
    var _ := state.UpdateFonts(db, app, window, load, faceFamily);
    second := state.UpdateFonts(db, app, window, load, faceFamily);
  }
}
