// The path arithmetic of the i18n router (leptos_i18n_router/src/routing.rs):
// building paths from pieces, matching a path against a route's segments,
// rebuilding it with the segments of the same route in another locale, reading
// the locale prefix back out of a path, and assembling the path to navigate to
// when the locale changes.
module Routing {
  import opened Wrappers
  import opened Text

  /** A `leptos_router` route segment. */
  datatype PathSegment =
    | Unit
    | Param(name: string)
    | OptionalParam(name: string)
    | Static(s: string)
    | Splat(name: string)

  /** A piece the builder keeps: non-empty, with no `/` at either end. */
  predicate Piece(s: string) {
    s != [] && s[0] != '/' && s[|s| - 1] != '/'
  }

  /** What `PathBuilder::push` does to the pieces: `/` trimmed at both ends,
    * an empty remainder skipped. */
  function PushPiece(parts: seq<string>, s: string): seq<string> {
    var t := TrimChar(s, '/');
    if t == [] then parts else parts + [t]
  }

  /** A push keeps the pieces, or appends the trimmed string as one more piece. */
  lemma PushPieceShape(parts: seq<string>, s: string)
    ensures PushPiece(parts, s) == parts
            || (PushPiece(parts, s) == parts + [TrimChar(s, '/')] && Piece(TrimChar(s, '/')))
  {
    TrimCharEnds(s, '/');
  }

  /** The pieces after pushing each string in turn. */
  function PushAll(parts: seq<string>, strs: seq<string>): (r: seq<string>)
    ensures |r| >= |parts|
    decreases |strs|
  {
    if |strs| == 0 then parts else PushAll(PushPiece(parts, strs[0]), strs[1..])
  }

  /** Builder pieces: the leading empty piece, then trimmed pieces. */
  predicate Pieces(parts: seq<string>) {
    |parts| >= 1 && parts[0] == "" && forall i :: 1 <= i < |parts| ==> Piece(parts[i])
  }

  /** The path the pieces make: a `/`, then the pieces joined by `/`. */
  function PathOf(parts: seq<string>): (r: string)
    requires |parts| >= 1
    ensures |r| >= 1 && r[0] == '/'
  {
    "/" + Join(parts[1..], "/")
  }

  lemma JoinFront(a: string, rest: seq<string>)
    requires rest != []
    ensures Join([a] + rest, "/") == a + ("/" + Join(rest, "/"))
  {
    assert ([a] + rest)[1..] == rest;
    Assoc(a, "/", Join(rest, "/"));
  }

  lemma Assoc(a: string, b: string, c: string)
    ensures a + b + c == a + (b + c)
  {
  }

  /** `PathBuilder`: the path pieces, starting with an empty one so that the
    * joined path starts with `/`. */
  class PathBuilder {
    var parts: seq<string>

    ghost predicate Valid()
      reads this
    {
      Pieces(parts)
    }

    /** `PathBuilder::new`. */
    constructor ()
      ensures Valid() && parts == [""]
    {
      parts := [""];
    }

    /** `push`. */
    method Push(s: string)
      requires Valid()
      modifies this
      ensures Valid() && parts == PushPiece(old(parts), s)
    {
      var t := TrimChar(s, '/');
      TrimCharEnds(s, '/');
      if t != [] {
        parts := parts + [t];
      }
    }

    /** `build`: the pieces joined by `/`; as the first piece is empty the
      * path starts with `/`, and an empty builder gives `/`. */
    function Build(): (r: string)
      reads this
      requires Valid()
      ensures r == PathOf(parts)
      ensures parts == [""] ==> r == "/"
    {
      JoinPieces(parts);
      var s := Join(parts, "/");
      if s == [] then "/" else s
    }
  }

  /** Joining the pieces with the leading empty one gives the path, except
    * that no pieces join to the empty string. */
  lemma JoinPieces(parts: seq<string>)
    requires Pieces(parts)
    ensures (if Join(parts, "/") == [] then "/" else Join(parts, "/")) == PathOf(parts)
  {
    if |parts| > 1 {
      JoinFront(parts[0], parts[1..]);
      assert parts == [parts[0]] + parts[1..];
    }
  }

  /** What `match_path_segments` returns from the route segment at `index`
    * on, with the optional parameters matched so far; `None` when the path
    * does not follow the route. */
  function MatchSegments(segs: seq<string>, route: seq<PathSegment>, index: nat, optionals: set<nat>): (r: Option<set<nat>>)
    ensures r.Some? ==> optionals <= r.value && forall k :: k in r.value && k !in optionals ==> index <= k
    decreases |segs| + |route|
  {
    if |segs| == 0 then (if |route| == 0 then Some(optionals) else None)
    else if |route| == 0 then None
    else
      var seg := segs[0];
      match route[0]
      case Unit => MatchSegments(segs, route[1..], index + 1, optionals)
      case Param(_) => MatchSegments(segs[1..], route[1..], index + 1, optionals)
      case OptionalParam(n) =>
        if n == seg then MatchSegments(segs[1..], route[1..], index + 1, optionals + {index})
        else MatchSegments(segs, route[1..], index + 1, optionals)
      case Static(s) =>
        if s == "" then MatchSegments(segs, route[1..], index + 1, optionals)
        else if s == seg then MatchSegments(segs[1..], route[1..], index + 1, optionals)
        else None
      case Splat(_) => Some(optionals)
  }

  /** `match_path_segments`: the labelled loops walk the path and the route
    * together. */
  method MatchPathSegments(segments: seq<string>, oldSegments: seq<PathSegment>) returns (r: Option<set<nat>>)
    ensures r == MatchSegments(segments, oldSegments, 0, {})
  {
    var optionals: set<nat> := {};
    var next := 0;
    var i := 0;
    while i < |segments|
      invariant 0 <= i <= |segments| && 0 <= next <= |oldSegments|
      invariant MatchSegments(segments, oldSegments, 0, {}) == MatchSegments(segments[i..], oldSegments[next..], next, optionals)
      decreases |segments| - i
    {
      var seg := segments[i];
      assert segments[i..][1..] == segments[i + 1..];
      while true
        invariant 0 <= next <= |oldSegments|
        invariant MatchSegments(segments, oldSegments, 0, {}) == MatchSegments(segments[i..], oldSegments[next..], next, optionals)
        decreases |oldSegments| - next
      {
        if next == |oldSegments| {
          return None;
        }
        var index := next;
        var nextSeg := oldSegments[next];
        next := next + 1;
        assert oldSegments[index..][1..] == oldSegments[next..];
        match nextSeg {
          case Unit =>
            continue;
          case Param(_) =>
            break;
          case OptionalParam(n) =>
            if n == seg {
              optionals := optionals + {index};
              break;
            }
            continue;
          case Static(s) =>
            if s == "" {
              continue;
            }
            if s == seg {
              break;
            }
            return None;
          case Splat(_) =>
            return Some(optionals);
        }
      }
      i := i + 1;
    }
    if next == |oldSegments| {
      return Some(optionals);
    }
    return None;
  }

  /** A route of non-empty static segments. */
  function Statics(ss: seq<string>): (r: seq<PathSegment>)
    ensures |r| == |ss| && forall i :: 0 <= i < |ss| ==> r[i] == Static(ss[i])
  {
    if ss == [] then [] else [Static(ss[0])] + Statics(ss[1..])
  }

  /** A route of static segments matches exactly the path made of them. */
  lemma {:induction false} StaticRouteMatches(segs: seq<string>, ss: seq<string>, index: nat, optionals: set<nat>)
    requires forall i :: 0 <= i < |ss| ==> ss[i] != ""
    ensures MatchSegments(segs, Statics(ss), index, optionals).Some? <==> segs == ss
    decreases |ss|
  {
    var route := Statics(ss);
    if |ss| > 0 && |segs| > 0 {
      assert route[1..] == Statics(ss[1..]);
      StaticRouteMatches(segs[1..], ss[1..], index + 1, optionals);
      if segs[0] == ss[0] && segs[1..] == ss[1..] {
        assert segs == [segs[0]] + segs[1..];
        assert ss == [ss[0]] + ss[1..];
      }
    }
  }

  /** A route of parameters matches every path of its length. */
  lemma {:induction false} ParamsMatchAny(segs: seq<string>, names: seq<string>, index: nat, optionals: set<nat>)
    requires |names| == |segs|
    ensures MatchSegments(segs, seq(|names|, i requires 0 <= i < |names| => Param(names[i])), index, optionals) == Some(optionals)
    decreases |segs|
  {
    var route := seq(|names|, i requires 0 <= i < |names| => Param(names[i]));
    if |segs| > 0 {
      assert route[1..] == seq(|names[1..]|, i requires 0 <= i < |names[1..]| => Param(names[1..][i]));
      ParamsMatchAny(segs[1..], names[1..], index + 1, optionals);
    }
  }

  /** A splat after matching static segments takes the rest of the path,
    * whatever follows it in the route. */
  lemma {:induction false} SplatTakesRest(ss: seq<string>, more: seq<string>, name: string, after: seq<PathSegment>, index: nat, optionals: set<nat>)
    requires forall i :: 0 <= i < |ss| ==> ss[i] != ""
    requires more != []
    ensures MatchSegments(ss + more, Statics(ss) + [Splat(name)] + after, index, optionals) == Some(optionals)
    decreases |ss|
  {
    var route := Statics(ss) + [Splat(name)] + after;
    if |ss| > 0 {
      assert (ss + more)[1..] == ss[1..] + more;
      assert route[1..] == Statics(ss[1..]) + [Splat(name)] + after;
      SplatTakesRest(ss[1..], more, name, after, index + 1, optionals);
    } else {
      assert ss + more == more;
      assert route == [Splat(name)] + after;
    }
  }

  /** What `construct_path_segments` pushes for the path following the route
    * from segment `index` on; `None` where it panics because the route ends
    * before the path. */
  function ConstructSegments(segs: seq<string>, route: seq<PathSegment>, index: nat, optionals: set<nat>): Option<seq<string>>
    decreases |segs| + |route|
  {
    if |segs| == 0 then Some([])
    else if |route| == 0 then None
    else
      var seg := segs[0];
      match route[0]
      case Unit => ConstructSegments(segs, route[1..], index + 1, optionals)
      case Param(_) => Prepend(seg, ConstructSegments(segs[1..], route[1..], index + 1, optionals))
      case OptionalParam(_) =>
        if index in optionals then Prepend(seg, ConstructSegments(segs[1..], route[1..], index + 1, optionals))
        else ConstructSegments(segs, route[1..], index + 1, optionals)
      case Static(s) =>
        if s == "" then ConstructSegments(segs, route[1..], index + 1, optionals)
        else Prepend(s, ConstructSegments(segs[1..], route[1..], index + 1, optionals))
      case Splat(_) => Some(segs)
  }

  function Prepend(s: string, r: Option<seq<string>>): Option<seq<string>> {
    if r.None? then None else Some([s] + r.value)
  }

  /**
   * Rebuilding a path with the very route it matched gives the path back:
   * static segments are the matched ones, parameters and matched optionals
   * copy the path, a splat copies the rest.
   */
  lemma {:induction false} MatchThenConstruct(segs: seq<string>, route: seq<PathSegment>, index: nat, acc: set<nat>, opt: set<nat>)
    requires MatchSegments(segs, route, index, acc) == Some(opt)
    requires forall k :: k in acc ==> k < index
    ensures ConstructSegments(segs, route, index, opt) == Some(segs)
    decreases |segs| + |route|
  {
    if |segs| > 0 {
      var seg := segs[0];
      assert segs == [seg] + segs[1..];
      match route[0]
      case Unit => MatchThenConstruct(segs, route[1..], index + 1, acc, opt);
      case Param(_) => MatchThenConstruct(segs[1..], route[1..], index + 1, acc, opt);
      case OptionalParam(n) =>
        if n == seg {
          MatchThenConstruct(segs[1..], route[1..], index + 1, acc + {index}, opt);
        } else {
          MatchThenConstruct(segs, route[1..], index + 1, acc, opt);
        }
      case Static(s) =>
        if s == "" {
          MatchThenConstruct(segs, route[1..], index + 1, acc, opt);
        } else {
          MatchThenConstruct(segs[1..], route[1..], index + 1, acc, opt);
        }
      case Splat(_) =>
    }
  }

  /**
   * The `'inner` loop of `construct_path_segments` for the path segment
   * `segs[0]`: the route is walked from `next` to the segment that takes it,
   * which gives the string to push; `ok` is false where the route runs out
   * (the source's `unwrap` panics), `splat` is true when the rest of the path
   * is taken as it is.
   */
  method NextPush(segs: seq<string>, route: seq<PathSegment>, next: nat, optionals: set<nat>)
    returns (ok: bool, after: nat, push: string, splat: bool)
    requires |segs| > 0 && next <= |route|
    ensures !ok ==> ConstructSegments(segs, route[next..], next, optionals).None?
    ensures ok ==> next < after <= |route|
    ensures ok && !splat ==>
      ConstructSegments(segs, route[next..], next, optionals)
      == Prepend(push, ConstructSegments(segs[1..], route[after..], after, optionals))
    ensures ok && splat ==> ConstructSegments(segs, route[next..], next, optionals) == Some(segs) && push == segs[0]
  {
    var seg := segs[0];
    after := next;
    while true
      invariant next <= after <= |route|
      invariant ConstructSegments(segs, route[next..], next, optionals) == ConstructSegments(segs, route[after..], after, optionals)
      decreases |route| - after
    {
      if after == |route| {
        return false, after, "", false;
      }
      var index := after;
      var nextSeg := route[after];
      after := after + 1;
      assert route[index..][1..] == route[after..];
      match nextSeg {
        case Unit =>
        case Param(_) =>
          return true, after, seg, false;
        case OptionalParam(_) =>
          if index in optionals {
            return true, after, seg, false;
          }
        case Static(t) =>
          if t != "" {
            return true, after, t, false;
          }
        case Splat(_) =>
          return true, after, seg, true;
      }
    }
  }

  /** `construct_path_segments`: `ok` is false where the source panics. */
  method ConstructPathSegments(segments: seq<string>, newSegments: seq<PathSegment>, pb: PathBuilder, optionals: set<nat>)
    returns (ok: bool)
    requires pb.Valid()
    modifies pb
    ensures pb.Valid()
    ensures ok == ConstructSegments(segments, newSegments, 0, optionals).Some?
    ensures ok ==> pb.parts == PushAll(old(pb.parts), ConstructSegments(segments, newSegments, 0, optionals).value)
  {
    ghost var pushed: seq<string> := [];
    ghost var remaining := ConstructSegments(segments, newSegments, 0, optionals);
    ghost var spec := remaining;
    PrependNothing(spec);
    var next := 0;
    var i := 0;
    var splat := false;
    assert segments[0..] == segments && newSegments[0..] == newSegments;
    while i < |segments| && !splat
      invariant 0 <= i <= |segments| && 0 <= next <= |newSegments| && pb.Valid()
      invariant pb.parts == PushAll(old(pb.parts), pushed)
      invariant spec == PrependAll(pushed, remaining)
      invariant !splat ==> remaining == ConstructSegments(segments[i..], newSegments[next..], next, optionals)
      invariant splat ==> remaining == Some(segments[i..])
      decreases |segments| - i, if splat then 0 else 1
    {
      var found, after, push, isSplat := NextPush(segments[i..], newSegments, next, optionals);
      if !found {
        return false;
      }
      SegmentsTail(segments, i);
      PushStep(old(pb.parts), pushed, push);
      remaining := if isSplat then Some(segments[i + 1..])
        else ConstructSegments(segments[i + 1..], newSegments[after..], after, optionals);
      PrependStep(pushed, push, remaining);
      pb.Push(push);
      pushed := pushed + [push];
      next := after;
      splat := isSplat;
      i := i + 1;
    }
    if !splat {
      assert segments[i..] == [];
    }
    PushEach(segments[i..], pb);
    PushAllAppend(old(pb.parts), pushed, segments[i..]);
    return true;
  }

  lemma SegmentsTail(segments: seq<string>, i: nat)
    requires i < |segments|
    ensures segments[i..][1..] == segments[i + 1..]
    ensures [segments[i]] + segments[i + 1..] == segments[i..]
  {
  }

  lemma PrependNothing(r: Option<seq<string>>)
    ensures PrependAll([], r) == r
  {
    if r.Some? {
      assert [] + r.value == r.value;
    }
  }

  /** The `for seg in outer_seg_iter` tail: every string pushed in order. */
  method PushEach(strs: seq<string>, pb: PathBuilder)
    requires pb.Valid()
    modifies pb
    ensures pb.Valid() && pb.parts == PushAll(old(pb.parts), strs)
  {
    var rest := strs;
    while rest != []
      invariant pb.Valid()
      invariant PushAll(pb.parts, rest) == PushAll(old(pb.parts), strs)
      decreases |rest|
    {
      pb.Push(rest[0]);
      rest := rest[1..];
    }
  }

  function PrependAll(p: seq<string>, r: Option<seq<string>>): Option<seq<string>> {
    if r.None? then None else Some(p + r.value)
  }

  lemma PrependStep(p: seq<string>, s: string, r: Option<seq<string>>)
    ensures PrependAll(p, Prepend(s, r)) == PrependAll(p + [s], r)
  {
    if r.Some? {
      assert p + ([s] + r.value) == (p + [s]) + r.value;
    }
  }

  lemma {:induction false} PushStep(parts: seq<string>, strs: seq<string>, s: string)
    ensures PushAll(parts, strs + [s]) == PushPiece(PushAll(parts, strs), s)
    decreases |strs|
  {
    if |strs| == 0 {
      assert strs + [s] == [s];
    } else {
      assert (strs + [s])[1..] == strs[1..] + [s];
      PushStep(PushPiece(parts, strs[0]), strs[1..], s);
    }
  }

  /** The non-empty pieces between the `/` of a path. */
  function PathSegments(path: string): (r: seq<string>)
    ensures forall i :: 0 <= i < |r| ==> r[i] != ""
  {
    NonEmpty(Split(path, '/'))
  }

  function NonEmpty(parts: seq<string>): (r: seq<string>)
    ensures forall i :: 0 <= i < |r| ==> r[i] != ""
  {
    if parts == [] then []
    else if parts[0] == "" then NonEmpty(parts[1..])
    else [parts[0]] + NonEmpty(parts[1..])
  }

  /** The first route the path follows, by position, with its matched
    * optionals. */
  function FindRoute(segs: seq<string>, routes: seq<seq<PathSegment>>): (r: Option<(nat, set<nat>)>)
    ensures r.Some? ==>
      r.value.0 < |routes| && MatchSegments(segs, routes[r.value.0], 0, {}) == Some(r.value.1)
    ensures r.Some? ==> forall j :: 0 <= j < r.value.0 ==> MatchSegments(segs, routes[j], 0, {}).None?
    ensures r.None? ==> forall j :: 0 <= j < |routes| ==> MatchSegments(segs, routes[j], 0, {}).None?
    decreases |routes|
  {
    if |routes| == 0 then None
    else match MatchSegments(segs, routes[0], 0, {})
      case Some(opt) => Some((0, opt))
      case None =>
        assert forall j :: 1 <= j < |routes| ==> routes[j] == routes[1..][j - 1];
        match FindRoute(segs, routes[1..])
        case None => None
        case Some((pos, opt)) => Some((pos + 1, opt))
  }

  /** How localizing a path ends. */
  datatype Localized = NotLocalized | Localized(pushes: seq<string>) | Panics

  /** What `localize_path` does: the route the path follows in the old
    * locale, rebuilt with the route at the same position in the new one. */
  function Localize(path: string, oldRoutes: seq<seq<PathSegment>>, newRoutes: seq<seq<PathSegment>>): Localized {
    var segs := PathSegments(path);
    match FindRoute(segs, oldRoutes)
    case None => NotLocalized
    case Some((pos, opt)) =>
      if pos >= |newRoutes| then Panics
      else match ConstructSegments(segs, newRoutes[pos], 0, opt)
        case None => Panics
        case Some(p) => Localized(p)
  }

  /** Localizing into the same routes gives the path's own segments back. */
  lemma LocalizeIntoSameRoutes(path: string, routes: seq<seq<PathSegment>>)
    requires FindRoute(PathSegments(path), routes).Some?
    ensures Localize(path, routes, routes) == Localized(PathSegments(path))
  {
    var segs := PathSegments(path);
    var (pos, opt) := FindRoute(segs, routes).value;
    MatchThenConstruct(segs, routes[pos], 0, {}, opt);
  }

  /** `localize_path`: `find_map` over the old routes, then the rebuild. */
  method LocalizePath(path: string, oldRoutes: seq<seq<PathSegment>>, newRoutes: seq<seq<PathSegment>>, pb: PathBuilder)
    returns (r: Localized)
    requires pb.Valid()
    modifies pb
    ensures pb.Valid()
    ensures r == Localize(path, oldRoutes, newRoutes)
    ensures r.NotLocalized? ==> pb.parts == old(pb.parts)
    ensures r.Localized? ==> pb.parts == PushAll(old(pb.parts), r.pushes)
  {
    var segs := PathSegments(path);
    var pos := 0;
    var found: Option<set<nat>> := None;
    while pos < |oldRoutes| && found.None?
      invariant 0 <= pos <= |oldRoutes| && pb.parts == old(pb.parts)
      invariant found.None? ==> forall j :: 0 <= j < pos ==> MatchSegments(segs, oldRoutes[j], 0, {}).None?
      invariant found.Some? ==> 0 < pos && FindRoute(segs, oldRoutes) == Some((pos - 1, found.value))
    {
      found := MatchPathSegments(segs, oldRoutes[pos]);
      pos := pos + 1;
    }
    if found.None? {
      return NotLocalized;
    }
    pos := pos - 1;
    if pos >= |newRoutes| {
      return Panics;
    }
    var ok := ConstructPathSegments(segs, newRoutes[pos], pb, found.value);
    if !ok {
      return Panics;
    }
    r := Localized(ConstructSegments(segs, newRoutes[pos], 0, found.value).value);
  }

  /** `get_locale_from_path`: the first segment after the base path, if it
    * is one of the locales. */
  function LocaleFromPath(path: string, basePath: string, locales: seq<string>): (r: Option<string>)
    ensures r.Some? ==> r.value in locales
  {
    match AfterBase(path, basePath)
    case None => None
    case Some(stripped) =>
      var toMatch := FirstPiece(stripped);
      if toMatch in locales then Some(toMatch) else None
  }

  /** The path after the base path, both without leading `/`; `None` when
    * the path is not under the base path. */
  function AfterBase(path: string, basePath: string): Option<string> {
    match StripPrefix(TrimStartChar(path, '/'), TrimStartChar(basePath, '/'))
    case None => None
    case Some(rest) => Some(TrimStartChar(rest, '/'))
  }

  /** The text before the first `/`, or all of it. */
  function FirstPiece(s: string): string {
    match SplitOnce(s, "/")
    case Some((first, _)) => first
    case None => s
  }

  /** The query part `get_new_path` appends. */
  function Query(search: string): string {
    if search == "" then "" else "?" + search
  }

  /** The fragment part `get_new_path` appends, with its leading `#`s dropped. */
  function Fragment(hash: string): string {
    if hash == "" then "" else "#" + TrimStartChar(hash, '#')
  }


  /** What `get_new_path` pushes for the rest of the path, the previous
    * locale already removed: the rest localized when both locales have
    * routes and the rest follows one of the old ones, else the rest as it
    * is; `None` where localizing panics. */
  function RestPushes(rest: string, oldLocale: string, newLocale: string, segments: map<string, seq<seq<PathSegment>>>): Option<seq<string>> {
    if oldLocale in segments && newLocale in segments then
      match Localize(rest, segments[oldLocale], segments[newLocale])
      case NotLocalized => Some([rest])
      case Panics => None
      case Localized(p) => Some(p)
    else Some([rest])
  }

  /** The strings `get_new_path` pushes: the base path, the new locale unless
    * it is the default, then the rest of the current path without the
    * previous locale, removed as a whole segment. */
  function NewPathPushes(
    pathname: string, basePath: string, newLocale: string, defaultLocale: string,
    locale: Option<string>, segments: map<string, seq<seq<PathSegment>>>): Option<seq<string>>
  {
    var head := [basePath] + (if newLocale != defaultLocale then [newLocale] else []);
    match StripPrefix(pathname, basePath)
    case None => Some(head)
    case Some(rest) =>
      var rest := if locale.Some? then StripLocaleSegment(rest, locale.value) else rest;
      var oldLocale := if locale.Some? then locale.value else defaultLocale;
      PrependAll(head, RestPushes(rest, oldLocale, newLocale, segments))
  }

  /** The strings `get_new_path` pushes as written: the previous locale is
    * removed as a prefix of the rest's text. */
  function NewPathPushesAsWritten(
    pathname: string, basePath: string, newLocale: string, defaultLocale: string,
    locale: Option<string>, segments: map<string, seq<seq<PathSegment>>>): Option<seq<string>>
  {
    var head := [basePath] + (if newLocale != defaultLocale then [newLocale] else []);
    match StripPrefix(pathname, basePath)
    case None => Some(head)
    case Some(rest) =>
      var rest := if locale.Some? then StripLocale(rest, locale.value) else rest;
      var oldLocale := if locale.Some? then locale.value else defaultLocale;
      PrependAll(head, RestPushes(rest, oldLocale, newLocale, segments))
  }

  /** The path `get_new_path` returns; `None` where it panics. */
  function NewPath(
    pathname: string, search: string, hash: string, basePath: string, newLocale: string,
    defaultLocale: string, locale: Option<string>, segments: map<string, seq<seq<PathSegment>>>): Option<string>
  {
    match NewPathPushes(pathname, basePath, newLocale, defaultLocale, locale, segments)
    case None => None
    case Some(p) => Some(PathOf(PushAll([""], p)) + Query(search) + Fragment(hash))
  }

  /** The rest of the path pushed into the builder, localized if it can be. */
  method PushRest(rest: string, oldLocale: string, newLocale: string, segments: map<string, seq<seq<PathSegment>>>, pb: PathBuilder)
    returns (ok: bool)
    requires pb.Valid()
    modifies pb
    ensures pb.Valid()
    ensures ok == RestPushes(rest, oldLocale, newLocale, segments).Some?
    ensures ok ==> pb.parts == PushAll(old(pb.parts), RestPushes(rest, oldLocale, newLocale, segments).value)
  {
    if oldLocale in segments && newLocale in segments {
      var l := LocalizePath(rest, segments[oldLocale], segments[newLocale], pb);
      if l.Panics? {
        return false;
      }
      if l.Localized? {
        return true;
      }
    }
    PushOne(old(pb.parts), rest);
    pb.Push(rest);
    return true;
  }

  lemma PushOne(parts: seq<string>, s: string)
    ensures PushAll(parts, [s]) == PushPiece(parts, s)
  {
    assert [s][1..] == [];
  }

  /** The path part of `get_new_path`. */
  method NewPathname(
    pathname: string, basePath: string, newLocale: string, defaultLocale: string,
    locale: Option<string>, segments: map<string, seq<seq<PathSegment>>>)
    returns (r: Option<string>)
    ensures r.None? <==> NewPathPushes(pathname, basePath, newLocale, defaultLocale, locale, segments).None?
    ensures r.Some? ==> r.value == PathOf(PushAll([""], NewPathPushes(pathname, basePath, newLocale, defaultLocale, locale, segments).value))
  {
    var pb := new PathBuilder();
    ghost var head := [basePath] + (if newLocale != defaultLocale then [newLocale] else []);
    PushOne([""], basePath);
    pb.Push(basePath);
    if newLocale != defaultLocale {
      PushStep([""], [basePath], newLocale);
      pb.Push(newLocale);
    }
    assert pb.parts == PushAll([""], head);
    var stripped := StripPrefix(pathname, basePath);
    if stripped.Some? {
      var rest := stripped.value;
      if locale.Some? {
        rest := StripLocaleSegment(rest, locale.value);
      }
      var oldLocale := if locale.Some? then locale.value else defaultLocale;
      ghost var before := pb.parts;
      var ok := PushRest(rest, oldLocale, newLocale, segments, pb);
      if !ok {
        return None;
      }
      PushAllAppend([""], head, RestPushes(rest, oldLocale, newLocale, segments).value);
    }
    r := Some(pb.Build());
  }

  /** `get_new_path`, the location given as its path, query and fragment. */
  method GetNewPath(
    pathname: string, search: string, hash: string, basePath: string, newLocale: string,
    defaultLocale: string, locale: Option<string>, segments: map<string, seq<seq<PathSegment>>>)
    returns (r: Option<string>)
    ensures r == NewPath(pathname, search, hash, basePath, newLocale, defaultLocale, locale, segments)
  {
    var path := NewPathname(pathname, basePath, newLocale, defaultLocale, locale, segments);
    if path.None? {
      return None;
    }
    var query := "";
    if search != "" {
      query := "?" + search;
    }
    var fragment := "";
    if hash != "" {
      fragment := "#" + TrimStartChar(hash, '#');
    }
    r := Some(path.value + query + fragment);
  }

  lemma {:induction false} PushAllAppend(parts: seq<string>, a: seq<string>, b: seq<string>)
    ensures PushAll(parts, a + b) == PushAll(PushAll(parts, a), b)
    decreases |a|
  {
    if |a| == 0 {
      assert a + b == b;
    } else {
      assert (a + b)[1..] == a[1..] + b;
      PushAllAppend(PushPiece(parts, a[0]), a[1..], b);
    }
  }

  /** The new path starts with `/` and ends with the query and the fragment. */
  lemma NewPathSuffix(
    pathname: string, search: string, hash: string, basePath: string, newLocale: string,
    defaultLocale: string, locale: Option<string>, segments: map<string, seq<seq<PathSegment>>>)
    requires NewPathPushes(pathname, basePath, newLocale, defaultLocale, locale, segments).Some?
    ensures var r := NewPath(pathname, search, hash, basePath, newLocale, defaultLocale, locale, segments);
      r.Some? && r.value[0] == '/'
      && EndsWith(r.value, Query(search) + Fragment(hash))
  {
    var p := NewPathPushes(pathname, basePath, newLocale, defaultLocale, locale, segments).value;
    var path := PathOf(PushAll([""], p));
    var suffix := Query(search) + Fragment(hash);
    assert path + Query(search) + Fragment(hash) == path + suffix;
    assert NewPath(pathname, search, hash, basePath, newLocale, defaultLocale, locale, segments) == Some(path + suffix);
    assert path[0] == '/' && (path + suffix)[0] == path[0];
    assert (path + suffix)[|path + suffix| - |suffix|..] == suffix;
  }

  /** The pieces pushed into any builder follow what was there. */
  lemma {:induction false} PushAllPrefix(parts: seq<string>, strs: seq<string>)
    ensures PushAll(parts, strs) == parts + PushAll([], strs)
    decreases |strs|
  {
    if |strs| > 0 {
      var t := TrimChar(strs[0], '/');
      PushAllPrefix(PushPiece(parts, strs[0]), strs[1..]);
      PushAllPrefix(PushPiece([], strs[0]), strs[1..]);
      if t != [] {
        assert PushPiece(parts, strs[0]) == parts + [t];
        assert PushPiece([], strs[0]) == [t];
      }
    }
  }

  /** A base path the router reads back: `/` and one name, or empty. */
  predicate SimpleBase(basePath: string) {
    basePath == "" || (basePath[0] == '/' && '/' !in basePath[1..])
  }

  /** The name in a simple base path. */
  function BaseName(basePath: string): string
    requires SimpleBase(basePath)
  {
    if basePath == "" then "" else basePath[1..]
  }

  /** A locale name that is a single path segment. */
  predicate SegmentName(l: string) {
    l != [] && '/' !in l
  }

  /** A string without the character is left alone by trimming it. */
  lemma TrimAbsent(s: string, c: char)
    requires c !in s
    ensures TrimStartChar(s, c) == s && TrimEndChar(s, c) == s && TrimChar(s, c) == s
  {
    if s != [] {
      assert s[0] in s;
      assert s[|s| - 1] in s;
    }
  }

  lemma TrimBase(basePath: string)
    requires SimpleBase(basePath)
    ensures TrimStartChar(basePath, '/') == BaseName(basePath)
    ensures TrimChar(basePath, '/') == BaseName(basePath)
    ensures '/' !in BaseName(basePath)
  {
    if basePath != "" {
      var b := basePath[1..];
      TrimAbsent(b, '/');
      assert TrimStartChar(basePath, '/') == TrimStartChar(b, '/');
    }
  }

  /** The pieces after the leading one, once the base path and a locale
    * are pushed. */
  lemma BaseAndLocalePieces(basePath: string, l: string, more: seq<string>)
    requires SimpleBase(basePath) && SegmentName(l)
    ensures var t := PushAll([], more);
      PushAll([""], [basePath, l] + more)[1..]
      == if BaseName(basePath) == "" then [l] + t else [BaseName(basePath)] + ([l] + t)
  {
    var t := PushAll([], more);
    var second := PushPiece(PushPiece([], basePath), l);
    PushedAfterHead([basePath, l] + more);
    PushTwo([], basePath, l, more);
    PushAllPrefix(second, more);
    assert PushAll([""], [basePath, l] + more)[1..] == second + t;
    BaseThenLocale(basePath, l, t);
  }

  lemma PushedAfterHead(x: seq<string>)
    ensures PushAll([""], x)[1..] == PushAll([], x)
  {
    PushAllPrefix([""], x);
    SliceAfterHead("", PushAll([], x));
  }

  lemma BaseThenLocale(basePath: string, l: string, t: seq<string>)
    requires SimpleBase(basePath) && SegmentName(l)
    ensures PushPiece(PushPiece([], basePath), l) + t
      == if BaseName(basePath) == "" then [l] + t else [BaseName(basePath)] + ([l] + t)
  {
    PushBase(basePath);
    PushSegment(PushPiece([], basePath), l);
    AppendPieces(BaseName(basePath), l, t);
  }

  lemma AppendPieces(b: string, l: string, t: seq<string>)
    ensures [] + [l] + t == [l] + t
    ensures [b] + [l] + t == [b] + ([l] + t)
  {
  }

  /** Pushing a simple base path adds its name, if it has one. */
  lemma PushBase(basePath: string)
    requires SimpleBase(basePath)
    ensures PushPiece([], basePath) == if BaseName(basePath) == "" then [] else [BaseName(basePath)]
  {
    TrimBase(basePath);
  }

  /** Pushing a segment name adds it unchanged. */
  lemma PushSegment(parts: seq<string>, l: string)
    requires SegmentName(l)
    ensures PushPiece(parts, l) == parts + [l]
  {
    TrimAbsent(l, '/');
  }


  lemma SliceAfterHead(x: string, rest: seq<string>)
    ensures ([x] + rest)[1..] == rest
  {
  }

  lemma PushTwo(parts: seq<string>, a: string, b: string, more: seq<string>)
    ensures PushAll(parts, [a, b] + more) == PushAll(PushPiece(PushPiece(parts, a), b), more)
  {
    assert ([a, b] + more)[1..] == [b] + more;
    assert ([b] + more)[1..] == more;
  }

  /** A string without `/` has no `/` to split at. */
  lemma NoSlashNoSplit(l: string)
    requires '/' !in l
    ensures SplitOnce(l, "/").None?
  {
  }

  /** The first segment of a locale followed by a path is the locale. */
  lemma FirstSegment(l: string, tail: string)
    requires SegmentName(l) && (tail == "" || tail[0] == '/')
    ensures TrimStartChar(l + tail, '/') == l + tail
    ensures FirstPiece(l + tail) == l
  {
    var s := l + tail;
    assert s[0] == l[0] && l[0] != '/' by { assert l[0] in l; }
    if tail == "" {
      assert s == l;
      NoSlashNoSplit(l);
    } else {
      var t := tail[1..];
      assert tail == "/" + t;
      assert s == l + "/" + t;
      FindAfterPrefix(l, "/", t);
    }
  }

  /** The text the locale and the later pieces join to. */
  lemma JoinLocale(l: string, t: seq<string>)
    ensures var tail := Join([l] + t, "/")[|l|..];
      Join([l] + t, "/") == l + tail && (tail == "" || tail[0] == '/')
  {
    if t != [] {
      JoinFront(l, t);
    }
  }

  /** One leading `/` before a string that does not start with one is trimmed. */
  lemma TrimOneSlash(x: string)
    requires x != [] && x[0] != '/'
    ensures TrimStartChar("/" + x, '/') == x
  {
    assert ("/" + x)[1..] == x;
  }

  /** The path a simple base path and a locale followed by `tail` make. */
  function BaseLocalePath(basePath: string, l: string, tail: string): string
    requires SimpleBase(basePath)
  {
    var b := BaseName(basePath);
    "/" + if b == "" then l + tail else b + ("/" + (l + tail))
  }

  /** What follows the base path is the locale and the tail. */
  lemma ReadAfterBase(basePath: string, l: string, tail: string)
    requires SimpleBase(basePath) && SegmentName(l) && (tail == "" || tail[0] == '/')
    ensures AfterBase(BaseLocalePath(basePath, l, tail), basePath) == Some(l + tail)
  {
    TrimBase(basePath);
    FirstSegment(l, tail);
    if BaseName(basePath) == "" {
      ReadAfterNoBase(l + tail);
    } else {
      ReadAfterNamedBase(BaseName(basePath), l + tail);
    }
  }

  lemma ReadAfterNoBase(x: string)
    requires x != [] && x[0] != '/' && TrimStartChar(x, '/') == x
    ensures StripPrefix(TrimStartChar("/" + x, '/'), "") == Some(x)
  {
    TrimOneSlash(x);
  }

  lemma ReadAfterNamedBase(b: string, x: string)
    requires b != [] && '/' !in b && x != [] && x[0] != '/' && TrimStartChar(x, '/') == x
    ensures match StripPrefix(TrimStartChar("/" + (b + ("/" + x)), '/'), b)
      case None => false
      case Some(rest) => TrimStartChar(rest, '/') == x
  {
    var joined := b + ("/" + x);
    assert joined[0] == b[0] && b[0] in b;
    TrimOneSlash(joined);
    StripAppended(b, "/" + x);
    TrimOneSlash(x);
  }

  lemma StripAppended(a: string, c: string)
    ensures StripPrefix(a + c, a) == Some(c)
  {
    assert (a + c)[..|a|] == a;
  }

  /** The tail after the locale in the joined pieces. */
  function LocaleTail(l: string, more: seq<string>): string {
    var j := Join([l] + PushAll([], more), "/");
    if |l| <= |j| then j[|l|..] else ""
  }

  /** The path the builder makes from the base path, a locale and more. */
  lemma BuiltPath(basePath: string, l: string, more: seq<string>)
    requires SimpleBase(basePath) && SegmentName(l)
    ensures var tail := LocaleTail(l, more);
      (tail == "" || tail[0] == '/')
      && PathOf(PushAll([""], [basePath, l] + more)) == BaseLocalePath(basePath, l, tail)
  {
    var parts := PushAll([""], [basePath, l] + more);
    var b := BaseName(basePath);
    var t := PushAll([], more);
    BaseAndLocalePieces(basePath, l, more);
    JoinLocale(l, t);
    if b != "" {
      JoinFront(b, [l] + t);
    }
  }

  /**
   * Reading the locale back out of a path that starts with the base path and
   * the locale gives the locale: the prefix `get_new_path` writes is the one
   * `get_locale_from_path` reads.
   */
  lemma LocaleRoundTrip(basePath: string, l: string, more: seq<string>, locales: seq<string>)
    requires SimpleBase(basePath) && SegmentName(l) && l in locales
    ensures LocaleFromPath(PathOf(PushAll([""], [basePath, l] + more)), basePath, locales) == Some(l)
  {
    BuiltPath(basePath, l, more);
    LocaleOfBaseLocalePath(basePath, l, LocaleTail(l, more), locales);
  }

  /** The locale read out of the path a base path, a locale and a tail make. */
  lemma LocaleOfBaseLocalePath(basePath: string, l: string, tail: string, locales: seq<string>)
    requires SimpleBase(basePath) && SegmentName(l) && l in locales && (tail == "" || tail[0] == '/')
    ensures LocaleFromPath(BaseLocalePath(basePath, l, tail), basePath, locales) == Some(l)
  {
    ReadAfterBase(basePath, l, tail);
    FirstSegment(l, tail);
  }

  /** How `get_new_path` removes the previous locale from the rest of the path. */
  function StripLocale(rest: string, l: string): string {
    match StripPrefix(rest, l)
    case Some(r) => r
    case None => rest
  }

  /** The locale as the whole first segment of the rest of the path, which
    * is what removing the previous locale is meant to do. */
  function StripLocaleSegment(rest: string, l: string): string {
    var t := TrimStartChar(rest, '/');
    if t == l then ""
    else if StartsWith(t, l + "/") then t[|l|..]
    else rest
  }

  /** Removing the locale segment never cuts a segment in two: what is left
    * is the path unchanged, empty, or starts at a `/`. */
  lemma StripLocaleSegmentAtBoundary(rest: string, l: string)
    ensures var r := StripLocaleSegment(rest, l);
      r == rest || r == "" || r[0] == '/'
  {
    var t := TrimStartChar(rest, '/');
    if t != l && StartsWith(t, l + "/") {
      assert t[|l|] == (l + "/")[|l|];
    }
  }

  /** The locale segment itself is removed, with what follows kept. */
  lemma StripLocaleSegmentRemoves(l: string, tail: string)
    requires SegmentName(l) && (tail == "" || tail[0] == '/')
    ensures StripLocaleSegment("/" + l + tail, l) == tail
  {
    var rest := "/" + l + tail;
    assert rest == ['/'] + (l + tail);
    FirstSegment(l, tail);
    assert TrimStartChar(rest, '/') == l + tail;
    if tail != "" {
      assert (l + tail)[..|l| + 1] == l + "/";
      assert |l + tail| > |l|;
      assert (l + tail)[|l|..] == tail;
    }
  }

  /**
   * As written, the previous locale is cut from the rest of the path as a
   * prefix of its text, so a first segment that merely starts with the
   * locale is cut in two.
   */
  lemma StripLocaleCutsSegment(l: string, x: string)
    requires l != "" && x != "" && x[0] != '/'
    ensures StripLocale(l + x, l) == x && x != l + x && x[0] != '/'
  {
    assert (l + x)[..|l|] == l;
  }

  /**
   * At the root base path, as written, a first segment that merely starts
   * with the previous locale loses that prefix: switching from `en` on
   * `/english` pushes `glish` as the rest of the path.
   */
  lemma RootBaseCutsSegment(l: string, x: string, newLocale: string, defaultLocale: string,
                            segments: map<string, seq<seq<PathSegment>>>)
    requires l != "" && x != "" && x[0] != '/'
    ensures var head := ["/"] + (if newLocale != defaultLocale then [newLocale] else []);
      NewPathPushesAsWritten("/" + (l + x), "/", newLocale, defaultLocale, Some(l), segments)
        == PrependAll(head, RestPushes(x, l, newLocale, segments))
  {
    StripAppended("/", l + x);
    StripLocaleCutsSegment(l, x);
  }

  /** With the locale removed as a whole segment, `english` stays intact under `en`. */
  lemma EnglishKeptBySegment()
    ensures StripLocaleSegment("english", "en") == "english"
  {
    assert "english"[0] != '/';
    assert TrimStartChar("english", '/') == "english";
    assert "english" != "en" by {
      assert |"english"| != |"en"|;
    }
    assert !StartsWith("english", "en/") by {
      assert "english"[2] != "en/"[2];
    }
  }

  /** A first segment longer than the locale is not the locale's segment and is kept. */
  lemma StripLocaleSegmentKeepsLonger(l: string, x: string)
    requires SegmentName(l) && x != "" && x[0] != '/'
    ensures StripLocaleSegment(l + x, l) == l + x
  {
    var t := l + x;
    assert t[0] == l[0] && l[0] != '/' by { assert l[0] in l; }
    assert TrimStartChar(t, '/') == t;
    assert t != l by { assert |t| > |l|; }
    assert !StartsWith(t, l + "/") by {
      if |l + "/"| <= |t| {
        assert t[..|l + "/"|][|l|] == x[0];
      }
    }
  }

  /** Corrected, at the root base path that segment is carried over whole:
    * switching from `en` on `/english` pushes `english`. */
  lemma RootBaseKeepsSegment(l: string, x: string, newLocale: string, defaultLocale: string,
                             segments: map<string, seq<seq<PathSegment>>>)
    requires SegmentName(l) && x != "" && x[0] != '/'
    ensures var head := ["/"] + (if newLocale != defaultLocale then [newLocale] else []);
      NewPathPushes("/" + (l + x), "/", newLocale, defaultLocale, Some(l), segments)
        == PrependAll(head, RestPushes(l + x, l, newLocale, segments))
  {
    StripAppended("/", l + x);
    StripLocaleSegmentKeepsLonger(l, x);
  }

  /**
   * On a path made of the base path, `/`, the previous locale and a tail, what
   * follows the base path starts with `/`, so as written the locale, which
   * holds no `/`, is never a prefix of it: the locale segment stays in the
   * path behind the new one. A base path that ends in `/` leaves no such `/`
   * on `/foo/de/bar`, and there the locale is stripped.
   */
  lemma NamedBaseKeepsLocale(basePath: string, l: string, tail: string, newLocale: string, defaultLocale: string,
                             segments: map<string, seq<seq<PathSegment>>>)
    requires SegmentName(l)
    ensures var head := [basePath] + (if newLocale != defaultLocale then [newLocale] else []);
      NewPathPushesAsWritten(basePath + ("/" + l + tail), basePath, newLocale, defaultLocale, Some(l), segments)
        == PrependAll(head, RestPushes("/" + l + tail, l, newLocale, segments))
  {
    var rest := "/" + l + tail;
    StripAppended(basePath, rest);
    assert l[0] in l;
    assert StripPrefix(rest, l).None? by {
      if |l| <= |rest| {
        assert rest[..|l|][0] == '/' != l[0];
      }
    }
  }

  /** Corrected, the locale segment after a base path is removed and only the tail is carried over. */
  lemma NamedBaseDropsLocale(basePath: string, l: string, tail: string, newLocale: string, defaultLocale: string,
                             segments: map<string, seq<seq<PathSegment>>>)
    requires SegmentName(l) && (tail == "" || tail[0] == '/')
    ensures var head := [basePath] + (if newLocale != defaultLocale then [newLocale] else []);
      NewPathPushes(basePath + ("/" + l + tail), basePath, newLocale, defaultLocale, Some(l), segments)
        == PrependAll(head, RestPushes(tail, l, newLocale, segments))
  {
    StripAppended(basePath, "/" + l + tail);
    StripLocaleSegmentRemoves(l, tail);
  }
}
