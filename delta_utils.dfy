/**
 * Path segmentation of the delta router (packages/delta/src/utils.ts): a path is cut at
 * every '/', empty pieces are dropped, and a piece starting with ':' is a parameter.
 */
module DeltaUtils {
  import opened JsString

  /** One parsed piece of a route path. */
  datatype SegmentInfo = SegmentInfo(value: string, isParam: bool)

  /** `segment.startsWith(':')`. */
  predicate SegmentIsParam(segment: string)
  {
    |segment| > 0 && segment[0] == ':'
  }

  /** `path.split('/').filter(Boolean)`, shared by the segmenter and the router's lookup. */
  function PathPieces(path: string): (pieces: seq<string>)
    ensures forall i :: 0 <= i < |pieces| ==> pieces[i] != "" && '/' !in pieces[i]
  {
    var parts := Split(path, '/');
    var r := NonEmpty(parts);
    NonEmptyFrom(parts);
    r
  }

  /** Every piece that survives the filter comes from the split. */
  lemma {:induction false} NonEmptyFrom(parts: seq<string>)
    requires forall i :: 0 <= i < |parts| ==> '/' !in parts[i]
    ensures forall i :: 0 <= i < |NonEmpty(parts)| ==> '/' !in NonEmpty(parts)[i]
  {
    if parts != [] {
      NonEmptyFrom(parts[1..]);
    }
  }

  /** The segment for one piece: a parameter loses its leading ':'. */
  function ToSegment(piece: string): SegmentInfo
  {
    var isParam := SegmentIsParam(piece);
    SegmentInfo(if isParam then piece[1..] else piece, isParam)
  }

  /** `getSegments(path)`: one segment per non-empty piece, in order. */
  function GetSegments(path: string): (segs: seq<SegmentInfo>)
    ensures |segs| == |PathPieces(path)|
    ensures forall i :: 0 <= i < |segs| ==>
              && segs[i].isParam == SegmentIsParam(PathPieces(path)[i])
              && segs[i].value == (if segs[i].isParam then PathPieces(path)[i][1..] else PathPieces(path)[i])
              && '/' !in segs[i].value
              && (!segs[i].isParam ==> segs[i].value != "")
  {
    var pieces := PathPieces(path);
    seq(|pieces|, i requires 0 <= i < |pieces| => ToSegment(pieces[i]))
  }

  /** The path text a segment list stands for: '/' before each piece, ':' before a parameter. */
  function Render(segs: seq<SegmentInfo>): string
  {
    if segs == [] then ""
    else "/" + (if segs[0].isParam then ":" else "") + segs[0].value + Render(segs[1..])
  }

  /** Pieces written with a '/' in front of each are the pieces read back. */
  lemma PathPiecesOfSlashed(pieces: seq<string>)
    requires forall i :: 0 <= i < |pieces| ==> pieces[i] != "" && '/' !in pieces[i]
    ensures PathPieces(SlashEach(pieces)) == pieces
  {
    if pieces != [] {
      var j := Join(pieces, '/');
      SlashEachIsJoin(pieces);
      assert SlashEach(pieces) == [] + ['/'] + j;
      SplitAppend([], j, '/');
      SplitJoin(pieces, '/');
      NonEmptyAppend([""], pieces);
      NonEmptyKeeps(pieces);
    }
  }

  /** A '/' in front of each piece is a '/' in front of their join. */
  lemma {:induction false} SlashEachIsJoin(pieces: seq<string>)
    requires |pieces| >= 1
    ensures SlashEach(pieces) == "/" + Join(pieces, '/')
  {
    if |pieces| > 1 {
      SlashEachIsJoin(pieces[1..]);
    }
  }

  /** `'/' + p` for every piece, concatenated. */
  function SlashEach(pieces: seq<string>): string
  {
    if pieces == [] then "" else "/" + pieces[0] + SlashEach(pieces[1..])
  }

  /** Rendering the segments of a path writes `'/' + piece` for each piece. */
  lemma {:induction false} RenderIsSlashEach(segs: seq<SegmentInfo>, pieces: seq<string>)
    requires |segs| == |pieces|
    requires forall i :: 0 <= i < |segs| ==> segs[i] == ToSegment(pieces[i])
    ensures Render(segs) == SlashEach(pieces)
  {
    if segs != [] {
      RenderIsSlashEach(segs[1..], pieces[1..]);
      var p := pieces[0];
      if SegmentIsParam(p) {
        assert ":" + p[1..] == p;
      }
    }
  }

  /** Re-joining the segments as `'/' + (':' if a parameter) + value` and segmenting again gives them back. */
  lemma SegmentsRoundTrip(path: string)
    ensures GetSegments(Render(GetSegments(path))) == GetSegments(path)
  {
    var pieces := PathPieces(path);
    var segs := GetSegments(path);
    RenderIsSlashEach(segs, pieces);
    PathPiecesOfSlashed(pieces);
  }

  /** Leading slashes are ignored. */
  lemma LeadingSlashIgnored(path: string)
    ensures PathPieces("/" + path) == PathPieces(path)
  {
    assert "/" + path == [] + ['/'] + path;
    SplitAppend([], path, '/');
    NonEmptyAppend([""], Split(path, '/'));
  }

  /** Trailing slashes are ignored. */
  lemma TrailingSlashIgnored(path: string)
    ensures PathPieces(path + "/") == PathPieces(path)
  {
    assert path + "/" == path + ['/'] + [];
    SplitAppend(path, [], '/');
    NonEmptyAppend(Split(path, '/'), [""]);
  }

  /** A doubled slash reads like a single one. */
  lemma RepeatedSlashIgnored(a: string, b: string)
    ensures PathPieces(a + "//" + b) == PathPieces(a + "/" + b)
  {
    var slashB := [] + ['/'] + b;
    assert a + "//" + b == a + ['/'] + slashB;
    assert a + "/" + b == a + ['/'] + b;
    SplitAppend(a, slashB, '/');
    SplitAppend([], b, '/');
    SplitAppend(a, b, '/');
    assert Split([], '/') == [""];
    assert Split(slashB, '/') == [""] + Split(b, '/');
    NonEmptyAppend(Split(a, '/'), Split(slashB, '/'));
    NonEmptyAppend([""], Split(b, '/'));
    NonEmptyAppend(Split(a, '/'), Split(b, '/'));
  }

  /** A path of slashes only has no pieces. */
  lemma {:induction false} OnlySlashesHaveNoPieces(path: string)
    requires forall i :: 0 <= i < |path| ==> path[i] == '/'
    ensures PathPieces(path) == []
  {
    if path != [] {
      assert path == "/" + path[1..];
      OnlySlashesHaveNoPieces(path[1..]);
      LeadingSlashIgnored(path[1..]);
    }
  }

  /**
   * Nothing strips a query string: text without '/' appended to a path that does not end
   * in '/' stays inside the last piece.
   */
  lemma QueryStaysInLastPiece(path: string, query: string)
    requires path != [] && path[|path| - 1] != '/'
    requires '/' !in query
    ensures var pieces := PathPieces(path);
            && pieces != []
            && PathPieces(path + query) == pieces[..|pieces| - 1] + [pieces[|pieces| - 1] + query]
  {
    var parts := Split(path, '/');
    var m := |parts|;
    SplitAppendNoSep(path, query, '/');
    SplitLastNonEmpty(path, '/');
    var last := parts[m - 1];
    assert parts == parts[..m - 1] + [last];
    NonEmptyAppend(parts[..m - 1], [last]);
    NonEmptyAppend(parts[..m - 1], [last + query]);
    assert last + query != "";
  }

  /** A bare ':' is a parameter with an empty name. */
  lemma BareColonIsEmptyParam()
    ensures GetSegments("/:") == [SegmentInfo("", true)]
  {
    PathPiecesOfSlashed([":"]);
    assert SlashEach([":"]) == "/:";
  }
}
