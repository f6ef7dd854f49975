/**
 * Working out the router's base path from the browser's pathname: drop an
 * embedded protocol, collapse runs of slashes, cut the path at the first
 * known route, and trim trailing slashes.
 */
module Router {
  import opened Wrappers
  import opened Strings
  import Seqs

  /** The separator of an embedded URL scheme. */
  const Protocol: string := "://"

  /** The application's top-level routes, in the order they are tried. */
  const KnownRoutes: seq<string> := ["/listings", "/details", "/saved", "/contact", "/help", "/terms", "/about"]

  /**
   * `path.split('://')[1]`: the text after the first separator, up to the
   * next separator or the end. It never contains the separator itself.
   */
  function AfterProtocol(path: string): (r: string)
    requires Contains(path, Protocol)
    ensures OccursAt(path, r, IndexOf(path, Protocol).value + |Protocol|)
    ensures !Contains(r, Protocol)
    ensures var e := IndexOf(path, Protocol).value + |Protocol| + |r|;
      e == |path| || OccursAt(path, Protocol, e)
  {
    var i := IndexOf(path, Protocol).value;
    var rest := path[i + |Protocol|..];
    match IndexOf(rest, Protocol)
    case None => rest
    case Some(j) =>
      OccursInSuffix(path, Protocol, i + |Protocol|, j);
      assert !Contains(rest[..j], Protocol) by {
        forall k: nat
          ensures !OccursAt(rest[..j], Protocol, k)
        {
          if OccursAt(rest[..j], Protocol, k) {
            OccursInPrefix(rest, Protocol, j, k);
          }
        }
      }
      rest[..j]
  }

  /**
   * The pathname with an embedded URL reduced to its path: from the first
   * `/` after the scheme, or `/` when there is none. A pathname without a
   * scheme separator is unchanged.
   */
  function StripProtocol(path: string): (r: string)
    ensures !Contains(path, Protocol) ==> r == path
    ensures Contains(path, Protocol) ==> |r| > 0 && r[0] == '/' && !Contains(r, Protocol)
    ensures Contains(path, Protocol) ==>
      var a := AfterProtocol(path);
      && ('/' !in a ==> r == "/")
      && ('/' in a ==> exists k :: 0 <= k <= |a| && r == a[k..] && '/' !in a[..k])
  {
    if !Contains(path, Protocol) then path
    else
      var after := AfterProtocol(path);
      match IndexOf(after, "/")
      case None =>
        assert '/' !in after by {
          forall i | 0 <= i < |after|
            ensures after[i] != '/'
          {
            OccursChar(after, '/', i);
          }
        }
        "/"
      case Some(k) =>
        assert '/' !in after[..k] by {
          forall i | 0 <= i < k
            ensures after[i] != '/'
          {
            OccursChar(after, '/', i);
          }
        }
        assert after[k..][0] == '/' by {
          assert OccursAt(after, "/", k);
        }
        assert !Contains(after[k..], Protocol) by {
          forall m: nat
            ensures !OccursAt(after[k..], Protocol, m)
          {
            if OccursAt(after[k..], Protocol, m) {
              OccursInSuffix(after, Protocol, k, m);
            }
          }
        }
        after[k..]
  }

  /** No two adjacent slashes. */
  predicate NoDoubleSlash(s: string) {
    forall i :: 0 <= i < |s| - 1 ==> !(s[i] == '/' && s[i + 1] == '/')
  }

  predicate NotSlash(c: char) {
    c != '/'
  }

  /**
   * `path.replace(/\/+/g, '/')`: every run of slashes becomes one slash.
   * The result starts with a slash exactly when the input does.
   */
  function CollapseSlashes(s: string): (r: string)
    ensures NoDoubleSlash(r)
    ensures |r| <= |s| && (r == [] <==> s == [])
    ensures |s| > 0 ==> r[0] == s[0]
    decreases |s|
  {
    if |s| <= 1 then s
    else if s[0] == '/' && s[1] == '/' then CollapseSlashes(s[1..])
    else [s[0]] + CollapseSlashes(s[1..])
  }

  /** Collapsing keeps every character other than `/`, in order. */
  lemma {:induction false} CollapseKeepsText(s: string)
    ensures Seqs.Filter(CollapseSlashes(s), NotSlash) == Seqs.Filter(s, NotSlash)
    decreases |s|
  {
    if |s| > 1 {
      CollapseKeepsText(s[1..]);
      if !(s[0] == '/' && s[1] == '/') {
        var t := CollapseSlashes(s[1..]);
        assert ([s[0]] + t)[0] == s[0] && ([s[0]] + t)[1..] == t;
      }
    }
  }

  /**
   * A double slash collapses like a single one; with `CollapseIdempotent`
   * this pins down every run of slashes becoming exactly one.
   */
  lemma {:induction false} CollapseRun(a: string, b: string)
    ensures CollapseSlashes(a + "//" + b) == CollapseSlashes(a + "/" + b)
    decreases |a|
  {
    var s, t := a + "//" + b, a + "/" + b;
    if a == [] {
      assert s[1..] == t;
    } else {
      CollapseRun(a[1..], b);
      assert s[1..] == a[1..] + "//" + b;
      assert t[1..] == a[1..] + "/" + b;
      assert s[0] == t[0] && s[1] == t[1];
    }
  }

  /** A path without double slashes is left alone, so collapsing is idempotent. */
  lemma {:induction false} CollapseIdempotent(s: string)
    requires NoDoubleSlash(s)
    ensures CollapseSlashes(s) == s
    decreases |s|
  {
    if |s| > 1 {
      CollapseIdempotent(s[1..]);
      assert s == [s[0]] + s[1..];
    }
  }

  /**
   * `base.replace(/\/+$/, '')`: the longest prefix of `s` that does not
   * end in a slash; everything cut off is slashes.
   */
  function TrimTrailingSlashes(s: string): (r: string)
    ensures r <= s
    ensures r == [] || r[|r| - 1] != '/'
    ensures forall i :: |r| <= i < |s| ==> s[i] == '/'
    decreases |s|
  {
    if |s| > 0 && s[|s| - 1] == '/' then TrimTrailingSlashes(s[..|s| - 1]) else s
  }

  /** The pathname after the scheme and slash clean-up. */
  function Normalise(pathname: string): string {
    CollapseSlashes(StripProtocol(pathname))
  }

  /** The path before the first occurrence of the first known route found; the whole path if none is. */
  function CutAtRoute(path: string): string {
    match FirstHit(path, KnownRoutes)
    case None => path
    case Some(k) => path[..IndexOf(path, KnownRoutes[k]).value]
  }

  /** The base path the router is created with. */
  function Basename(pathname: string): string {
    var cleaned := TrimTrailingSlashes(CutAtRoute(Normalise(pathname)));
    if cleaned == "" then "/" else cleaned
  }

  /**
   * The base path, computed in stages as the router does: `path` is
   * reassigned by each clean-up, and the route loop stops at the first
   * route that occurs.
   */
  method GetBasename(pathname: string) returns (basename: string)
    ensures basename == Basename(pathname)
  {
    var path := pathname;
    if Contains(path, Protocol) {
      var afterProtocol := AfterProtocol(path);
      var firstSlashIndex := IndexOf(afterProtocol, "/");
      path := if firstSlashIndex.Some? then afterProtocol[firstSlashIndex.value..] else "/";
    }
    path := CollapseSlashes(path);
    var base := path;
    var i := 0;
    while i < |KnownRoutes|
      invariant 0 <= i <= |KnownRoutes|
      invariant base == path
      invariant forall k :: 0 <= k < i ==> !Contains(path, KnownRoutes[k])
    {
      var index := IndexOf(path, KnownRoutes[i]);
      if index.Some? {
        base := path[..index.value];
        assert FirstHit(path, KnownRoutes) == Some(i);
        break;
      }
      i := i + 1;
    }
    var cleanedBase := TrimTrailingSlashes(base);
    basename := if cleanedBase == "" then "/" else cleanedBase;
  }

  /**
   * The base path is never empty, ends in a slash only when it is `/`,
   * has no double slashes, and is `/` or a prefix of the normalised path;
   * it starts with a slash whenever the normalised path does.
   */
  lemma BasenameShape(pathname: string)
    ensures var b := Basename(pathname);
      && b != ""
      && (b[|b| - 1] == '/' ==> b == "/")
      && NoDoubleSlash(b)
      && (b == "/" || b <= Normalise(pathname))
      && (|Normalise(pathname)| > 0 && Normalise(pathname)[0] == '/' ==> b[0] == '/')
  {
    var path := Normalise(pathname);
    var cut := CutAtRoute(path);
    assert cut <= path;
    var cleaned := TrimTrailingSlashes(cut);
    assert cleaned <= path;
    forall i | 0 <= i < |cleaned| - 1
      ensures !(cleaned[i] == '/' && cleaned[i + 1] == '/')
    {
      assert cleaned[i] == path[i] && cleaned[i + 1] == path[i + 1];
    }
  }

  /** With no known route in the normalised path, the whole of it, trimmed, is the base. */
  lemma NoRouteKeepsPath(pathname: string)
    requires forall k :: 0 <= k < |KnownRoutes| ==> !Contains(Normalise(pathname), KnownRoutes[k])
    ensures var cleaned := TrimTrailingSlashes(Normalise(pathname));
      Basename(pathname) == if cleaned == "" then "/" else cleaned
  {
  }

  /**
   * List order beats position: when `/listings` occurs at all, the base
   * is the text before its first occurrence, whatever other routes occur
   * earlier in the path.
   */
  lemma ListingsTakesPriority(pathname: string)
    requires Contains(Normalise(pathname), "/listings")
    ensures var path := Normalise(pathname);
      var cleaned := TrimTrailingSlashes(path[..IndexOf(path, "/listings").value]);
      Basename(pathname) == if cleaned == "" then "/" else cleaned
  {
    assert KnownRoutes[0] == "/listings";
  }
}
