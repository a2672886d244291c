/** The breadcrumb trail derived from the current pathname: a root link,
    then one crumb per non-empty path segment whose href is the path up to
    that segment, whose label is the decoded segment with dashes shown as
    spaces, and of which only the last is the current page. */
module Breadcrumbs {

  const Slash: char := '/'

  /** How many times `c` occurs in `s`. */
  function Occurrences(s: string, c: char): nat {
    if s == [] then 0
    else Occurrences(s[..|s| - 1], c) + (if s[|s| - 1] == c then 1 else 0)
  }

  /** `s` with every `c` removed. */
  function Strip(s: string, c: char): string {
    if s == [] then []
    else Strip(s[..|s| - 1], c) + (if s[|s| - 1] == c then [] else [s[|s| - 1]])
  }

  /** `s.split(sep)` for a one-character separator: the pieces between
      separators, empty pieces included; there is one more piece than there
      are separators. */
  function Split(s: string, sep: char): (parts: seq<string>)
    ensures |parts| == Occurrences(s, sep) + 1
  {
    if s == [] then [""]
    else
      var init := Split(s[..|s| - 1], sep);
      var c := s[|s| - 1];
      if c == sep then init + [""]
      else init[..|init| - 1] + [init[|init| - 1] + [c]]
  }

  /** `parts.join(sep)`. */
  function Join(parts: seq<string>, sep: char): string {
    if |parts| == 0 then ""
    else if |parts| == 1 then parts[0]
    else Join(parts[..|parts| - 1], sep) + [sep] + parts[|parts| - 1]
  }

  /** The pieces laid end to end. */
  function Flatten(parts: seq<string>): string {
    if parts == [] then ""
    else Flatten(parts[..|parts| - 1]) + parts[|parts| - 1]
  }

  /** `parts.filter(Boolean)`: the non-empty pieces, in order. */
  function NonEmpty(parts: seq<string>): seq<string> {
    if parts == [] then []
    else
      var last := parts[|parts| - 1];
      NonEmpty(parts[..|parts| - 1]) + (if last == "" then [] else [last])
  }

  /** `pathname.split("/").filter(Boolean)`. */
  function Segments(pathname: string): seq<string> {
    NonEmpty(Split(pathname, Slash))
  }

  /** `"/" + segments.slice(0, i + 1).join("/")`: the href of crumb `i`. */
  function Href(segments: seq<string>, i: nat): string
    requires i < |segments|
  {
    "/" + Join(segments[..i + 1], Slash)
  }

  /** `s.replace(/-/g, " ")`: every dash becomes a space, nothing else changes. */
  function ReplaceDashes(s: string): (r: string)
    ensures |r| == |s|
    ensures forall k :: 0 <= k < |s| ==> r[k] == (if s[k] == '-' then ' ' else s[k])
    ensures '-' !in r
  {
    if s == [] then []
    else ReplaceDashes(s[..|s| - 1]) + [if s[|s| - 1] == '-' then ' ' else s[|s| - 1]]
  }

  /** One rendered crumb; `current` marks the plain-text current page,
      every other crumb is a link to `href`. */
  datatype Crumb = Crumb(href: string, caption: string, current: bool)

  /** The root link that always opens the trail. */
  const Root: Crumb := Crumb("/", "Users", false)

  /** The crumbs after the root, one per segment; `decode` stands for
      `decodeURIComponent`. */
  function Crumbs(pathname: string, decode: string -> string): (crumbs: seq<Crumb>)
    ensures |crumbs| == |Segments(pathname)|
    ensures forall i :: 0 <= i < |crumbs| ==> '-' !in crumbs[i].caption
    ensures forall i :: 0 <= i < |crumbs| ==> (crumbs[i].current <==> i == |crumbs| - 1)
  {
    var segments := Segments(pathname);
    seq(|segments|, i requires 0 <= i < |segments| =>
      Crumb(Href(segments, i), ReplaceDashes(decode(segments[i])), i == |segments| - 1))
  }

  /** The whole trail: the root link, then the crumbs. */
  function Trail(pathname: string, decode: string -> string): seq<Crumb> {
    [Root] + Crumbs(pathname, decode)
  }

  // ---------------------------------------------------------------------
  // Splitting and joining

  /** Extending the last piece by a character extends the join by that character. */
  lemma JoinExtendLast(a: seq<string>, b: string, c: char, sep: char)
    ensures Join(a + [b + [c]], sep) == Join(a + [b], sep) + [c]
  {
  }

  /** Joining the pieces of a split restores the string. */
  lemma {:induction false} JoinSplit(s: string, sep: char)
    ensures Join(Split(s, sep), sep) == s
  {
    if s != [] {
      var t := s[..|s| - 1];
      var c := s[|s| - 1];
      var init := Split(t, sep);
      JoinSplit(t, sep);
      assert s == t + [c];
      if c == sep {
        var parts := init + [""];
        assert Split(s, sep) == parts;
        assert parts[..|init|] == init;
        assert Join(parts, sep) == Join(init, sep) + [sep] + "";
      } else {
        var k := |init| - 1;
        assert Split(s, sep) == init[..k] + [init[k] + [c]];
        assert init == init[..k] + [init[k]];
        JoinExtendLast(init[..k], init[k], c, sep);
        assert Join(Split(s, sep), sep) == t + [c];
      }
    }
  }

  /** No piece of a split contains the separator. */
  lemma {:induction false} SplitPiecesAvoidSeparator(s: string, sep: char)
    ensures forall p :: p in Split(s, sep) ==> sep !in p
  {
    if s != [] {
      var t := s[..|s| - 1];
      var c := s[|s| - 1];
      SplitPiecesAvoidSeparator(t, sep);
      var init := Split(t, sep);
      if c != sep {
        var k := |init| - 1;
        assert init[k] in init;
        forall p | p in init[..k] ensures p in init {
          var j :| 0 <= j < k && init[..k][j] == p;
          assert init[j] == p;
        }
      }
    }
  }

  /** A separator-free string splits into itself. */
  lemma {:induction false} SplitPiece(w: string, sep: char)
    requires sep !in w
    ensures Split(w, sep) == [w]
  {
    if w != [] {
      SplitPiece(w[..|w| - 1], sep);
      assert w == w[..|w| - 1] + [w[|w| - 1]];
    }
  }

  /** Splitting `t + sep + w`, with `w` separator-free, adds `w` as the last piece. */
  lemma {:induction false} SplitAppendPiece(t: string, w: string, sep: char)
    requires sep !in w
    ensures Split(t + [sep] + w, sep) == Split(t, sep) + [w]
  {
    var s := t + [sep] + w;
    if w == [] {
      assert s[..|s| - 1] == t;
    } else {
      var w' := w[..|w| - 1];
      assert s[..|s| - 1] == t + [sep] + w';
      SplitAppendPiece(t, w', sep);
      assert w == w' + [w[|w| - 1]];
    }
  }

  /** Splitting a join of separator-free pieces gives the pieces back. */
  lemma {:induction false} SplitJoin(parts: seq<string>, sep: char)
    requires |parts| >= 1
    requires forall p :: p in parts ==> sep !in p
    ensures Split(Join(parts, sep), sep) == parts
  {
    if |parts| == 1 {
      SplitPiece(parts[0], sep);
    } else {
      var n := |parts| - 1;
      var init := parts[..n];
      forall p | p in init ensures sep !in p {
        var j :| 0 <= j < n && init[j] == p;
        assert parts[j] == p;
      }
      SplitJoin(init, sep);
      assert parts[n] in parts;
      SplitAppendPiece(Join(init, sep), parts[n], sep);
      assert parts == init + [parts[n]];
    }
  }

  /** Joining with a leading piece puts it in front, followed by the separator. */
  lemma {:induction false} JoinCons(a: string, parts: seq<string>, sep: char)
    requires |parts| >= 1
    ensures Join([a] + parts, sep) == a + [sep] + Join(parts, sep)
  {
    var n := |parts| - 1;
    assert ([a] + parts)[..|parts|] == [a] + parts[..n];
    if n > 0 {
      JoinCons(a, parts[..n], sep);
    }
  }

  // ---------------------------------------------------------------------
  // Filtering the pieces

  /** A piece passes the filter exactly when it is one of the pieces and not empty. */
  lemma {:induction false} NonEmptyMembership(parts: seq<string>)
    ensures forall x :: x in NonEmpty(parts) <==> x in parts && x != ""
  {
    if parts != [] {
      var n := |parts| - 1;
      NonEmptyMembership(parts[..n]);
      assert parts == parts[..n] + [parts[n]];
    }
  }

  /** Filtering distributes over concatenation, so the kept pieces keep their order. */
  lemma {:induction false} NonEmptyAppend(a: seq<string>, b: seq<string>)
    ensures NonEmpty(a + b) == NonEmpty(a) + NonEmpty(b)
  {
    if b == [] {
      assert a + b == a;
    } else {
      var n := |b| - 1;
      assert (a + b)[..|a + b| - 1] == a + b[..n];
      NonEmptyAppend(a, b[..n]);
    }
  }

  /** Pieces that are all non-empty pass the filter unchanged. */
  lemma {:induction false} NonEmptyKeepsAll(parts: seq<string>)
    requires forall p :: p in parts ==> p != ""
    ensures NonEmpty(parts) == parts
  {
    if parts != [] {
      var n := |parts| - 1;
      forall p | p in parts[..n] ensures p != "" {
        var j :| 0 <= j < n && parts[..n][j] == p;
        assert parts[j] in parts;
      }
      NonEmptyKeepsAll(parts[..n]);
      assert parts[n] in parts;
      assert parts == parts[..n] + [parts[n]];
    }
  }

  /** Empty pieces contribute nothing when the pieces are laid end to end. */
  lemma {:induction false} FlattenNonEmpty(parts: seq<string>)
    ensures Flatten(NonEmpty(parts)) == Flatten(parts)
  {
    if parts != [] {
      var n := |parts| - 1;
      FlattenNonEmpty(parts[..n]);
      if parts[n] != "" {
        var kept := NonEmpty(parts[..n]) + [parts[n]];
        assert kept[..|kept| - 1] == NonEmpty(parts[..n]);
      } else {
        assert NonEmpty(parts) == NonEmpty(parts[..n]);
        assert Flatten(parts) == Flatten(parts[..n]) + "";
      }
    }
  }

  // ---------------------------------------------------------------------
  // Segments

  /** Segments are never empty and never contain a slash: leading, trailing
      and repeated slashes are all collapsed. */
  lemma SegmentsWellFormed(pathname: string)
    ensures forall seg :: seg in Segments(pathname) ==> seg != "" && Slash !in seg
  {
    NonEmptyMembership(Split(pathname, Slash));
    SplitPiecesAvoidSeparator(pathname, Slash);
  }

  /** The pieces of a split, laid end to end, are the string without its separators. */
  lemma {:induction false} FlattenSplit(s: string, sep: char)
    ensures Flatten(Split(s, sep)) == Strip(s, sep)
  {
    if s == [] {
      assert [""][..0] == [];
    } else {
      var t := s[..|s| - 1];
      var c := s[|s| - 1];
      var init := Split(t, sep);
      FlattenSplit(t, sep);
      if c == sep {
        var parts := init + [""];
        assert Split(s, sep) == parts;
        assert parts[..|parts| - 1] == init;
      } else {
        var k := |init| - 1;
        var parts := init[..k] + [init[k] + [c]];
        assert Split(s, sep) == parts;
        assert parts[..|parts| - 1] == init[..k];
        assert init == init[..k] + [init[k]];
        assert Flatten(init) == Flatten(init[..k]) + init[k];
      }
    }
  }

  /** The segments, laid end to end, are the pathname with its slashes taken
      out: every other character is kept, in order. */
  lemma SegmentsKeepCharacters(pathname: string)
    ensures Flatten(Segments(pathname)) == Strip(pathname, Slash)
  {
    FlattenNonEmpty(Split(pathname, Slash));
    FlattenSplit(pathname, Slash);
  }

  /** The root path gives no segments, so the trail is the root link alone. */
  lemma RootPathHasOnlyRootCrumb(decode: string -> string)
    ensures Segments("/") == []
    ensures Trail("/", decode) == [Root]
  {
    assert "/"[..0] == [];
    assert Split("/", Slash) == ["", ""];
    assert ["", ""][..1] == [""];
    assert [""][..0] == [];
    assert NonEmpty([""]) == [];
  }

  /** The pieces of "/saved/". */
  lemma SplitOfSavedPath()
    ensures Split("/saved/", Slash) == ["", "saved", ""]
  {
    assert Slash !in "saved";
    SplitAppendPiece("", "saved", Slash);
    assert "" + [Slash] + "saved" == "/saved";
    SplitAppendPiece("/saved", "", Slash);
    assert "/saved" + [Slash] + "" == "/saved/";
  }

  /** "/saved/" has the one segment "saved". */
  lemma SegmentsOfSavedPath()
    ensures Segments("/saved/") == ["saved"]
  {
    SplitOfSavedPath();
    assert NonEmpty([""]) == [] by {
      assert [""][..0] == [];
    }
    assert NonEmpty(["", "saved"]) == ["saved"] by {
      assert ["", "saved"][..1] == [""];
    }
    assert NonEmpty(["", "saved", ""]) == ["saved"] by {
      assert ["", "saved", ""][..2] == ["", "saved"];
    }
  }

  /** A trailing slash is dropped: the one crumb of "/saved/" links to
      "/saved" and is the current page. */
  lemma TrailingSlashDropped(decode: string -> string)
    ensures |Crumbs("/saved/", decode)| == 1
    ensures Crumbs("/saved/", decode)[0].href == "/saved"
    ensures Crumbs("/saved/", decode)[0].current
  {
    SegmentsOfSavedPath();
    var segments := ["saved"];
    assert segments[..1] == segments;
    assert Href(segments, 0) == "/saved";
  }

  // ---------------------------------------------------------------------
  // Hrefs

  /** Each href extends the previous one by a slash and the next segment. */
  lemma HrefExtends(segments: seq<string>, i: nat)
    requires i + 1 < |segments|
    ensures Href(segments, i + 1) == Href(segments, i) + "/" + segments[i + 1]
  {
    assert segments[..i + 2][..i + 1] == segments[..i + 1];
  }

  /** Each href is a proper prefix of every later one. */
  lemma {:induction false} HrefStrictPrefix(segments: seq<string>, i: nat, j: nat)
    requires i < j < |segments|
    ensures Href(segments, i) < Href(segments, j)
  {
    HrefExtends(segments, j - 1);
    if i < j - 1 {
      HrefStrictPrefix(segments, i, j - 1);
    }
  }

  /** Hrefs grow strictly in length along the trail, so no two crumbs share
      an href and the list keys are unique. */
  lemma HrefsDistinct(pathname: string, decode: string -> string)
    ensures forall i, j :: 0 <= i < j < |Crumbs(pathname, decode)| ==>
      |Crumbs(pathname, decode)[i].href| < |Crumbs(pathname, decode)[j].href|
    ensures forall i, j :: 0 <= i < j < |Crumbs(pathname, decode)| ==>
      Crumbs(pathname, decode)[i].href != Crumbs(pathname, decode)[j].href
  {
    var crumbs := Crumbs(pathname, decode);
    var segments := Segments(pathname);
    forall i, j | 0 <= i < j < |crumbs|
      ensures |crumbs[i].href| < |crumbs[j].href|
    {
      HrefStrictPrefix(segments, i, j);
    }
  }

  /** A slash followed by the join of non-empty, slash-free segments splits
      into the leading empty piece and those segments, which the filter keeps. */
  lemma SplitRooted(segments: seq<string>)
    requires segments != []
    requires forall seg :: seg in segments ==> seg != "" && Slash !in seg
    ensures Split("/" + Join(segments, Slash), Slash) == [""] + segments
    ensures NonEmpty([""] + segments) == segments
  {
    JoinCons("", segments, Slash);
    assert "/" + Join(segments, Slash) == Join([""] + segments, Slash);
    SplitJoin([""] + segments, Slash);
    NonEmptyAppend([""], segments);
    NonEmptyKeepsAll(segments);
    assert NonEmpty([""]) == [] by {
      assert [""][..0] == [];
    }
  }

  /** The last crumb's href is the pathname normalised: it splits into the
      leading empty piece and exactly the pathname's segments (so it has no
      repeated and no trailing slash), and it has the same segments. */
  lemma LastHrefNormalised(pathname: string, decode: string -> string)
    requires Segments(pathname) != []
    ensures Crumbs(pathname, decode)[|Segments(pathname)| - 1].href == "/" + Join(Segments(pathname), Slash)
    ensures Split(Crumbs(pathname, decode)[|Segments(pathname)| - 1].href, Slash) == [""] + Segments(pathname)
    ensures Segments(Crumbs(pathname, decode)[|Segments(pathname)| - 1].href) == Segments(pathname)
  {
    var segments := Segments(pathname);
    assert segments[..|segments|] == segments;
    SegmentsWellFormed(pathname);
    SplitRooted(segments);
  }

  // ---------------------------------------------------------------------
  // The trail as rendered

  /** With at least one segment, exactly one crumb of the trail, the last, is
      the current page; the root and every earlier crumb are links. With no
      segment, nothing is the current page. */
  lemma OneCurrentPage(pathname: string, decode: string -> string)
    ensures forall i :: 0 <= i < |Trail(pathname, decode)| ==>
      (Trail(pathname, decode)[i].current <==> i == |Trail(pathname, decode)| - 1 && Segments(pathname) != [])
  {
  }

  /** Crumb `i` comes from segment `i`: its href ends in that segment and
      its caption (the source's `label`) is that segment decoded, with dashes shown as spaces. */
  lemma CrumbFollowsSegment(pathname: string, decode: string -> string, i: nat)
    requires i < |Segments(pathname)|
    ensures Crumbs(pathname, decode)[i].caption == ReplaceDashes(decode(Segments(pathname)[i]))
    ensures i == 0 ==> Crumbs(pathname, decode)[i].href == "/" + Segments(pathname)[0]
    ensures i > 0 ==> Crumbs(pathname, decode)[i].href == Crumbs(pathname, decode)[i - 1].href + "/" + Segments(pathname)[i]
  {
    var segments := Segments(pathname);
    if i > 0 {
      HrefExtends(segments, i - 1);
    } else {
      assert segments[..1] == [segments[0]];
    }
  }
}
