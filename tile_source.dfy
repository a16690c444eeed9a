/**
 * The LERC raster tile source: the completion handler of a tile fetch
 * (abort first, then the network error, then decode, normalise and upload),
 * aborting and unloading a tile, and the source's small pure members.
 *
 * The WebGL context and the painter's texture pool are the abstract
 * `Gpu.Painter`.
 */
module LercTileSource {
  import opened Wrappers
  import opened Normalize
  import opened Gpu

  /** The lifecycle states of a host tile record; the completion compares a tile's state only with `Loaded` (line 134). */
  datatype TileState = Loading | Loaded | Reloading | Unloaded | Errored | Expired

  /** The error object the network layer passes to the completion. */
  datatype Error = Error(message: string)

  /** What the LERC decoder does with the fetched bytes: a grid, or a throw on malformed input. */
  datatype DecodeResult = Decoded(grid: DecodedGrid) | Malformed

  /** How a completion ends: the tile callback with its error argument, or an exception. */
  datatype Outcome = Callback(err: Option<Error>) | Threw

  /** A tile coordinate, handed through to the bounds test. */
  datatype Coord = Coord(z: int, x: int, y: int)

  /** The bounds object built from the bounds array and the source's zoom range. */
  datatype TileBounds = TileBounds(bounds: seq<real>, minzoom: int, maxzoom: int)

  /** The options a source is created with; `None` is an absent key. */
  datatype SourceOptions = SourceOptions(
    url: Option<string>,
    scheme: Option<string>,
    tileSize: Option<int>,
    minzoom: Option<int>,
    maxzoom: Option<int>)

  /** The plain record returned by `serialize`. */
  datatype Descriptor = Descriptor(
    sourceType: string,
    url: Option<string>,
    tileSize: int,
    tiles: Option<seq<string>>,
    bounds: Option<seq<real>>)

  // ---------------------------------------------------------------------------
  // The tile URL
  // ---------------------------------------------------------------------------

  /** Removes every `$` from a URL, keeping the other characters in order. */
  function StripDollars(s: string): (r: string)
    ensures forall k :: 0 <= k < |r| ==> r[k] != '$'
  {
    if s == [] then []
    else (if s[0] == '$' then [] else [s[0]]) + StripDollars(s[1..])
  }

  /** Exactly the `$` characters are removed: every other character keeps its count. */
  lemma {:induction false} StripDollarsCounts(s: string)
    ensures |StripDollars(s)| + multiset(s)['$'] == |s|
    ensures forall c :: c != '$' ==> multiset(StripDollars(s))[c] == multiset(s)[c]
  {
    if s != [] {
      StripDollarsCounts(s[1..]);
      assert s == [s[0]] + s[1..];
      assert multiset(s) == multiset{s[0]} + multiset(s[1..]);
    }
  }

  /** Stripping works piecewise: it distributes over concatenation. */
  lemma {:induction false} StripDollarsConcat(a: string, b: string)
    ensures StripDollars(a + b) == StripDollars(a) + StripDollars(b)
  {
    if a == [] {
      assert a + b == b;
    } else {
      assert (a + b)[1..] == a[1..] + b;
      StripDollarsConcat(a[1..], b);
    }
  }

  /** A URL without `$` is left as it is; in particular stripping is idempotent. */
  lemma {:induction false} StripDollarsKeepsClean(s: string)
    requires forall k :: 0 <= k < |s| ==> s[k] != '$'
    ensures StripDollars(s) == s
    ensures StripDollars(StripDollars(s)) == StripDollars(s)
  {
    if s != [] {
      StripDollarsKeepsClean(s[1..]);
    }
  }

  // ---------------------------------------------------------------------------
  // Heap objects: a pending request and a tile record
  // ---------------------------------------------------------------------------

  /** The cancellable handle of a byte-buffer fetch. */
  class Request {
    const url: string
    var abortCalls: nat

    constructor (url: string)
      ensures this.url == url && abortCalls == 0
    {
      this.url := url;
      abortCalls := 0;
    }

    /** Cancels the fetch. */
    method Abort()
      modifies this`abortCalls
      ensures abortCalls == old(abortCalls) + 1
    {
      abortCalls := abortCalls + 1;
    }
  }

  /** The tile record the host passes in; `request == null` is a deleted request. */
  class Tile {
    const coord: Coord
    var request: Request?
    var aborted: bool
    var state: TileState
    var texture: Option<Texture>

    constructor (coord: Coord, state: TileState)
      ensures this.coord == coord && this.state == state
      ensures request == null && !aborted && texture.None?
    {
      this.coord := coord;
      this.state := state;
      request := null;
      aborted := false;
      texture := None;
    }
  }

  /** The tile's texture, when it has one, is a texture the painter holds an image for. */
  ghost predicate Owns(tile: Tile, painter: Painter)
    reads tile, painter
  {
    tile.texture.Some? ==> tile.texture.value in painter.contents
  }

  /** The normalised ImageData of a grid, sized as the canvas it is drawn on. */
  function TileImage(g: DecodedGrid): (img: Image)
    ensures WellFormed(img) && img.width == g.width && img.height == g.height
  {
    Image(g.width, g.height, RgbaImage(g))
  }

  /** A decode result that reaches the upload: decoded, with a non-empty ImageData. */
  predicate Renderable(d: DecodeResult)
  {
    d.Decoded? && d.grid.width > 0 && d.grid.height > 0
  }

  // ---------------------------------------------------------------------------
  // The source
  // ---------------------------------------------------------------------------

  class LercSource {
    const id: string
    var url: Option<string>
    var scheme: string
    var tileSize: int
    var minzoom: int
    var maxzoom: int
    var tiles: Option<seq<string>>
    var bounds: Option<seq<real>>
    var tileBounds: Option<TileBounds>
    /** The source object's own `state`, which the abort and error paths assign. */
    var state: Option<TileState>

    /** Defaults, overridden by the options that are present. */
    constructor (id: string, options: SourceOptions)
      ensures this.id == id && url == options.url
      ensures scheme == (if options.scheme.Some? then options.scheme.value else "xyz")
      ensures tileSize == (if options.tileSize.Some? then options.tileSize.value else 512)
      ensures minzoom == (if options.minzoom.Some? then options.minzoom.value else 0)
      ensures maxzoom == (if options.maxzoom.Some? then options.maxzoom.value else 9)
      ensures tiles.None? && bounds.None? && tileBounds.None? && state.None?
    {
      this.id := id;
      url := options.url;
      scheme := if options.scheme.Some? then options.scheme.value else "xyz";
      tileSize := if options.tileSize.Some? then options.tileSize.value else 512;
      minzoom := if options.minzoom.Some? then options.minzoom.value else 0;
      maxzoom := if options.maxzoom.Some? then options.maxzoom.value else 9;
      tiles, bounds, tileBounds, state := None, None, None, None;
    }

    /** The persisted descriptor of the source. */
    function Serialize(): (d: Descriptor)
      reads this
      ensures d.sourceType == "lerc"
      ensures d.url == url && d.tileSize == tileSize && d.tiles == tiles && d.bounds == bounds
    {
      Descriptor("lerc", url, tileSize, tiles, bounds)
    }

    /**
     * Whether the source has a tile at `coord`: always without bounds,
     * otherwise as the bounds object, tested by `contains` at `maxzoom`, says.
     */
    function HasTile(coord: Coord, contains: (TileBounds, Coord, int) -> bool): (r: bool)
      reads this
      ensures tileBounds.None? ==> r
      ensures tileBounds.Some? ==> (r <==> contains(tileBounds.value, coord, maxzoom))
    {
      tileBounds.None? || contains(tileBounds.value, coord, maxzoom)
    }

    /** Records the bounds; builds a bounds object only when bounds are given. */
    method SetBounds(b: Option<seq<real>>)
      modifies this`bounds, this`tileBounds
      ensures bounds == b
      ensures tileBounds == if b.Some? then Some(TileBounds(b.value, minzoom, maxzoom)) else old(tileBounds)
      ensures Serialize() == old(Serialize()).(bounds := b)
    {
      bounds := b;
      if b.Some? {
        tileBounds := Some(TileBounds(b.value, minzoom, maxzoom));
      }
    }

    /**
     * Starts the fetch of a tile: `normalizedUrl` is the tile URL the host
     * built; its `$` characters are removed and the new request is stored.
     */
    method LoadTile(tile: Tile, normalizedUrl: string)
      modifies tile`request
      ensures tile.request != null && fresh(tile.request)
      ensures tile.request.url == StripDollars(normalizedUrl) && tile.request.abortCalls == 0
    {
      var s := StripDollars(normalizedUrl);
      tile.request := new Request(s);
    }

    /**
     * The completion of a tile fetch with the network's `err` and what the
     * decoder makes of the bytes. The request is deleted first; an aborted
     * tile, then an error, ends the completion before anything is decoded;
     * otherwise the samples are normalised and uploaded: into a new texture
     * when the tile is not yet loaded, else by a sub-image update of the
     * tile's texture (the full re-upload for a resize is never taken).
     */
    method Done(tile: Tile, painter: Painter, err: Option<Error>, decoded: DecodeResult)
      returns (outcome: Outcome)
      requires painter.Valid() && Owns(tile, painter)
      modifies this`state, tile`request, tile`state, tile`texture, painter
      ensures painter.Valid() && Owns(tile, painter)
      ensures tile.request == null
      // abort first: the callback gets no error, the source (not the tile) is marked unloaded
      ensures old(tile.aborted) ==> outcome == Callback(None) && state == Some(Unloaded)
      // then the network error: propagated, the source (not the tile) is marked errored
      ensures !old(tile.aborted) && err.Some? ==> outcome == Callback(err) && state == Some(Errored)
      // a decoder or ImageData exception escapes: no callback
      ensures !old(tile.aborted) && err.None? && !Renderable(decoded) ==> outcome == Threw && state == old(state)
      // none of those touches the tile's state, its texture or the GPU
      ensures old(tile.aborted) || err.Some? || !Renderable(decoded) ==>
        tile.state == old(tile.state) && tile.texture == old(tile.texture) && unchanged(painter)
      // success
      ensures !old(tile.aborted) && err.None? && Renderable(decoded) ==>
        && outcome == Callback(None) && state == old(state) && tile.state == Loaded
        && painter.pool == old(painter.pool)
      // first load: exactly one new texture, fully uploaded with the normalised image
      ensures !old(tile.aborted) && err.None? && Renderable(decoded) && old(tile.state) != Loaded ==>
        && tile.texture == Some(Texture(old(painter.created)))
        && Texture(old(painter.created)) !in old(painter.contents)
        && painter.created == old(painter.created) + 1
        && painter.fullUploads == old(painter.fullUploads) + 1
        && painter.subUploads == old(painter.subUploads)
        && painter.contents == old(painter.contents)[tile.texture.value := TileImage(decoded.grid)]
      // later load: same handle, one sub-image upload, no creation and no full upload
      ensures !old(tile.aborted) && err.None? && Renderable(decoded) && old(tile.state) == Loaded ==>
        && tile.texture == old(tile.texture)
        && painter.created == old(painter.created)
        && painter.fullUploads == old(painter.fullUploads)
        && painter.subUploads == old(painter.subUploads) + 1
        && painter.contents == if tile.texture.Some?
             then old(painter.contents)[tile.texture.value :=
                    SubImage(old(painter.contents)[tile.texture.value], TileImage(decoded.grid))]
             else old(painter.contents)
      // a later load of the texture's own size replaces its image; a larger one leaves it as it was
      ensures !old(tile.aborted) && err.None? && Renderable(decoded) && old(tile.state) == Loaded
              && tile.texture.Some? ==>
        var before := old(painter.contents)[tile.texture.value];
        && (before.width == decoded.grid.width && before.height == decoded.grid.height ==>
              painter.contents[tile.texture.value] == TileImage(decoded.grid))
        && (decoded.grid.width > before.width || decoded.grid.height > before.height ==>
              painter.contents == old(painter.contents))
    {
      tile.request := null;

      if tile.aborted {
        state := Some(Unloaded);
        return Callback(None);
      }

      if err.Some? {
        state := Some(Errored);
        return Callback(err);
      }

      if decoded.Malformed? {
        return Threw;
      }
      var g := decoded.grid;
      var width, height := g.width, g.height;
      if width == 0 || height == 0 {
        // createImageData refuses an empty image
        return Threw;
      }

      var data := new byte[4 * PixelCount(g)];
      FillImageData(data, g);
      var image := Image(width, height, data[..]);

      var resize := false;
      if tile.state != Loaded {
        tile.state := Loaded;
        var t := painter.CreateTexture();
        tile.texture := Some(t);
        painter.TexImage2D(t, image);
      } else if resize {
        // `resize` is the constant false: the full re-upload of a loaded tile is never reached
        assert false;
      } else {
        if tile.texture.Some? {
          var before := painter.contents[tile.texture.value];
          if before.width == width && before.height == height {
            SubImageSameSize(before, image);
          }
        }
        painter.TexSubImage2D(tile.texture, image);
      }

      outcome := Callback(None);
    }

    /** Cancels and deletes a pending request; without one, nothing happens. */
    method AbortTile(tile: Tile)
      modifies tile`request, tile.request
      ensures tile.request == null
      ensures old(tile.request) != null ==> old(tile.request).abortCalls == old(tile.request.abortCalls) + 1
      ensures tile.texture == old(tile.texture) && tile.state == old(tile.state)
    {
      if tile.request != null {
        tile.request.Abort();
        tile.request := null;
      }
    }

    /** Hands the tile's texture, if any, to the pool; the tile keeps its handle. */
    method UnloadTile(tile: Tile, painter: Painter)
      requires painter.Valid() && Owns(tile, painter)
      modifies painter`pool
      ensures painter.Valid()
      ensures painter.pool == if tile.texture.Some? then old(painter.pool) + [tile.texture.value] else old(painter.pool)
      ensures tile.texture == old(tile.texture)
    {
      if tile.texture.Some? {
        painter.SaveTileTexture(tile.texture.value);
      }
    }
  }

  // ---------------------------------------------------------------------------
  // Scenarios: what a host observes through the contracts above
  // ---------------------------------------------------------------------------

  /**
   * A tile marked aborted and aborted while its fetch is pending: the late
   * completion calls back with no error, creates and uploads nothing and
   * leaves the tile's own state and texture as they were.
   */
  method AbortRaceScenario(url: string, g: DecodedGrid)
    returns (outcome: Outcome, abortCalls: nat, created: nat, uploads: nat, tileState: TileState, texture: Option<Texture>)
    ensures outcome == Callback(None)
    ensures abortCalls == 1 && created == 0 && uploads == 0
    ensures tileState == Loading && texture.None?
  {
    var source := new LercSource("lerc", SourceOptions(None, None, None, None, None));
    var painter := new Painter();
    var tile := new Tile(Coord(0, 0, 0), Loading);
    source.LoadTile(tile, url);
    var request := tile.request;
    tile.aborted := true;
    source.AbortTile(tile);
    source.AbortTile(tile);
    outcome := source.Done(tile, painter, None, Decoded(g));
    abortCalls := request.abortCalls;
    created, uploads := painter.created, painter.fullUploads + painter.subUploads;
    tileState, texture := tile.state, tile.texture;
  }

  /**
   * Two successful completions of the same size on one tile: the first
   * creates the texture with a full upload, the second keeps the handle and
   * only updates it, replacing the image. Unloading then pools that handle
   * and leaves it on the tile.
   */
  method RefreshScenario(url: string, g1: DecodedGrid, g2: DecodedGrid)
    returns (first: Option<Texture>, second: Option<Texture>, created: nat, full: nat, sub: nat,
             image: Image, pool: seq<Texture>)
    requires g1.width > 0 && g1.height > 0
    requires g2.width == g1.width && g2.height == g1.height
    ensures first == second == Some(Texture(0))
    ensures created == 1 && full == 1 && sub == 1
    ensures image == TileImage(g2)
    ensures pool == [Texture(0)]
  {
    var source := new LercSource("lerc", SourceOptions(None, None, None, None, None));
    var painter := new Painter();
    var tile := new Tile(Coord(3, 1, 2), Loading);
    source.LoadTile(tile, url);
    assert Renderable(Decoded(g1)) && Renderable(Decoded(g2));
    var o1 := source.Done(tile, painter, None, Decoded(g1));
    first := tile.texture;
    assert tile.state == Loaded && first == Some(Texture(0));
    assert painter.contents == map[Texture(0) := TileImage(g1)];
    source.LoadTile(tile, url);
    var o2 := source.Done(tile, painter, None, Decoded(g2));
    second := tile.texture;
    created, full, sub := painter.created, painter.fullUploads, painter.subUploads;
    image := painter.contents[Texture(0)];
    source.UnloadTile(tile, painter);
    pool := painter.pool;
    assert tile.texture == second;
  }

  /**
   * A refresh that decodes to a wider or taller grid than the first load:
   * the sub-image update is refused, so the texture keeps the first image.
   */
  method LargerRefreshScenario(g1: DecodedGrid, g2: DecodedGrid)
    returns (texture: Option<Texture>, sub: nat, image: Image)
    requires g1.width > 0 && g1.height > 0 && g2.width > 0 && g2.height > 0
    requires g2.width > g1.width || g2.height > g1.height
    ensures texture == Some(Texture(0)) && sub == 1
    ensures image == TileImage(g1)
  {
    var source := new LercSource("lerc", SourceOptions(None, None, None, None, None));
    var painter := new Painter();
    var tile := new Tile(Coord(3, 1, 2), Loading);
    var o1 := source.Done(tile, painter, None, Decoded(g1));
    assert painter.contents == map[Texture(0) := TileImage(g1)];
    assert Renderable(Decoded(g2));
    var o2 := source.Done(tile, painter, None, Decoded(g2));
    texture, sub := tile.texture, painter.subUploads;
    image := painter.contents[Texture(0)];
  }

  /**
   * A refresh that decodes to a narrower grid of the same height: the
   * texture keeps its size, its first pixel is the new one and the last
   * pixel of its first row still holds the first load's bytes.
   */
  method SmallerRefreshScenario(g1: DecodedGrid, g2: DecodedGrid)
    returns (image: Image)
    requires g2.width > 0 && g1.width > g2.width && g1.height == g2.height > 0
    ensures image.width == g1.width && image.height == g1.height
    ensures |image.bytes| == |RgbaImage(g1)| >= 4 * g1.width && |RgbaImage(g2)| >= 4
    ensures image.bytes[..4] == RgbaImage(g2)[..4]
    ensures image.bytes[4 * (g1.width - 1)..4 * g1.width] == RgbaImage(g1)[4 * (g1.width - 1)..4 * g1.width]
  {
    var source := new LercSource("lerc", SourceOptions(None, None, None, None, None));
    var painter := new Painter();
    var tile := new Tile(Coord(3, 1, 2), Loading);
    var o1 := source.Done(tile, painter, None, Decoded(g1));
    assert painter.contents == map[Texture(0) := TileImage(g1)];
    assert Renderable(Decoded(g2));
    var o2 := source.Done(tile, painter, None, Decoded(g2));
    var first := TileImage(g1);
    assert painter.contents == map[Texture(0) := SubImage(first, TileImage(g2))];
    image := painter.contents[Texture(0)];
    assert |image.bytes| == |RgbaImage(g1)|;
    SubImageFirstPixel(first, TileImage(g2));
    SubImageRowEnd(first, TileImage(g2));
  }

  /**
   * A loaded tile that the host moves to another state (a reload, say) and
   * that completes again gets a second, newly created texture; the first
   * handle is neither kept on the tile nor handed to the pool.
   */
  method ReloadScenario(url: string, g1: DecodedGrid, g2: DecodedGrid, again: TileState)
    returns (first: Option<Texture>, second: Option<Texture>, created: nat, full: nat, pool: seq<Texture>)
    requires g1.width > 0 && g1.height > 0 && g2.width > 0 && g2.height > 0
    requires again != Loaded
    ensures first == Some(Texture(0)) && second == Some(Texture(1))
    ensures created == 2 && full == 2
    ensures pool == []
  {
    var source := new LercSource("lerc", SourceOptions(None, None, None, None, None));
    var painter := new Painter();
    var tile := new Tile(Coord(3, 1, 2), Loading);
    source.LoadTile(tile, url);
    var o1 := source.Done(tile, painter, None, Decoded(g1));
    first := tile.texture;
    assert painter.created == 1 && painter.fullUploads == 1;
    tile.state := again;
    source.LoadTile(tile, url);
    var o2 := source.Done(tile, painter, None, Decoded(g2));
    second := tile.texture;
    created, full, pool := painter.created, painter.fullUploads, painter.pool;
  }
}
