/**
 * Resolution of a stored video URL to something the detail page can play
 * (`getEmbedUrl`, src/pages/Movie.tsx). Three unanchored regular expressions
 * are tried in a fixed order -- YouTube, Vimeo, Google Drive -- and the first
 * that matches decides an `iframe` embed; otherwise the URL is played
 * directly as a `video` source.
 *
 * Each regular expression has the shape `(?:m1|m2|...)([class]+)`: a literal
 * marker followed by a non-empty run of characters of one class. JavaScript's
 * `String.prototype.match` (no `g` flag) reports the match that starts at the
 * leftmost position; at one position the alternatives are tried in order; and
 * since nothing follows the greedy `+`, the captured run is the longest one.
 * `FirstMatch` computes exactly that match and `IsFirstMatch` states it
 * declaratively; the contract of `FirstMatch` and `FirstMatchUnique` tie the two.
 */
module EmbedUrl {
  import opened Wrappers

  // ---------------------------------------------------------------------
  // Character classes and literal markers
  // ---------------------------------------------------------------------

  /** The two character classes that follow a marker. */
  datatype CharClass =
    | IdChars  // [a-zA-Z0-9_-]
    | Digits   // \d, which without the `u` flag is [0-9]

  predicate InClass(cls: CharClass, c: char) {
    match cls
    case IdChars => ('a' <= c <= 'z') || ('A' <= c <= 'Z') || ('0' <= c <= '9') || c == '_' || c == '-'
    case Digits => '0' <= c <= '9'
  }

  /** The literal `marker` occurs in `s` at position `i`. */
  predicate StartsAt(s: string, i: nat, marker: string) {
    i + |marker| <= |s| && s[i..i + |marker|] == marker
  }

  /** Length of the longest run of `cls` characters in `s` that starts at `j`. */
  function RunLength(s: string, j: nat, cls: CharClass): (n: nat)
    requires j <= |s|
    ensures j + n <= |s|
    ensures forall k :: j <= k < j + n ==> InClass(cls, s[k])
    ensures j + n == |s| || !InClass(cls, s[j + n])
    decreases |s| - j
  {
    if j == |s| || !InClass(cls, s[j]) then 0 else 1 + RunLength(s, j + 1, cls)
  }

  // ---------------------------------------------------------------------
  // The declarative meaning of a match
  // ---------------------------------------------------------------------

  /** Pattern `marker([cls]+)` can match at position `i` of `s`. */
  predicate OccursAt(s: string, i: nat, marker: string, cls: CharClass) {
    StartsAt(s, i, marker) && i + |marker| < |s| && InClass(cls, s[i + |marker|])
  }

  /** Some alternative of `markers`, followed by `[cls]+`, occurs somewhere in `s`. */
  predicate Occurs(s: string, markers: seq<string>, cls: CharClass) {
    exists j, m :: 0 <= j < |s| && 0 <= m < |markers| && OccursAt(s, j, markers[m], cls)
  }

  /** `id` is a non-empty run of `cls` characters at `j` in `s` that cannot be extended. */
  predicate IsMaximalRun(s: string, j: nat, id: string, cls: CharClass) {
    && 0 < |id|
    && j + |id| <= |s|
    && s[j..j + |id|] == id
    && (forall k :: 0 <= k < |id| ==> InClass(cls, id[k]))
    && (j + |id| == |s| || !InClass(cls, s[j + |id|]))
  }

  /** A match: position, index of the alternative that matched, and the captured group. */
  datatype Hit = Hit(pos: nat, alt: nat, id: string)

  /** `h` is a match of alternative `h.alt` at `h.pos` whose group is greedy. */
  predicate IsMatch(s: string, markers: seq<string>, cls: CharClass, h: Hit) {
    && h.alt < |markers|
    && StartsAt(s, h.pos, markers[h.alt])
    && IsMaximalRun(s, h.pos + |markers[h.alt]|, h.id, cls)
  }

  /** None of the alternatives `markers[lo..hi]` occurs at position `i`. */
  predicate NoAltAt(s: string, i: nat, markers: seq<string>, lo: int, hi: int, cls: CharClass) {
    forall m :: lo <= m < hi && 0 <= m < |markers| ==> !OccursAt(s, i, markers[m], cls)
  }

  /** No alternative occurs at any position in `[lo, hi)`. */
  predicate NoneIn(s: string, lo: int, hi: int, markers: seq<string>, cls: CharClass) {
    forall j: nat :: lo <= j < hi ==> NoAltAt(s, j, markers, 0, |markers|, cls)
  }

  /** `h` is the match JavaScript reports: leftmost position, then first alternative, greedy group. */
  predicate IsFirstMatch(s: string, markers: seq<string>, cls: CharClass, h: Hit) {
    && IsMatch(s, markers, cls, h)
    && NoneIn(s, 0, h.pos, markers, cls)
    && NoAltAt(s, h.pos, markers, 0, h.alt, cls)
  }

  /** The pattern occurs nowhere exactly when no alternative occurs at any position of the string. */
  lemma NotOccursIsNoneIn(s: string, markers: seq<string>, cls: CharClass)
    ensures !Occurs(s, markers, cls) <==> NoneIn(s, 0, |s|, markers, cls)
  {
    if Occurs(s, markers, cls) {
      var j, m :| 0 <= j < |s| && 0 <= m < |markers| && OccursAt(s, j, markers[m], cls);
      assert !NoAltAt(s, j, markers, 0, |markers|, cls);
    }
    if !NoneIn(s, 0, |s|, markers, cls) {
      var j: nat :| j < |s| && !NoAltAt(s, j, markers, 0, |markers|, cls);
      var m :| 0 <= m < |markers| && OccursAt(s, j, markers[m], cls);
    }
  }

  /** Peeling the first alternative off `NoAltAt`. */
  lemma NoAltAtStep(s: string, i: nat, markers: seq<string>, k: nat, hi: nat, cls: CharClass)
    requires k < hi && k < |markers|
    ensures NoAltAt(s, i, markers, k, hi, cls) <==> !OccursAt(s, i, markers[k], cls) && NoAltAt(s, i, markers, k + 1, hi, cls)
  {
  }

  /** Peeling the first position off `NoneIn`. */
  lemma NoneInStep(s: string, lo: nat, hi: nat, markers: seq<string>, cls: CharClass)
    requires lo < hi
    ensures NoneIn(s, lo, hi, markers, cls) <==> NoAltAt(s, lo, markers, 0, |markers|, cls) && NoneIn(s, lo + 1, hi, markers, cls)
  {
  }

  /** The run `RunLength` measures, when non-empty, is a maximal run. */
  lemma RunIsMaximal(s: string, j: nat, cls: CharClass)
    requires j <= |s| && RunLength(s, j, cls) > 0
    ensures IsMaximalRun(s, j, s[j..j + RunLength(s, j, cls)], cls)
  {
    var id := s[j..j + RunLength(s, j, cls)];
    assert forall q :: 0 <= q < |id| ==> id[q] == s[j + q];
  }

  // ---------------------------------------------------------------------
  // The search
  // ---------------------------------------------------------------------

  /** The regular expression's attempt at position `i`, trying alternatives `k`, `k+1`, ... in order. */
  function TryAt(s: string, i: nat, markers: seq<string>, k: nat, cls: CharClass): Option<Hit>
    requires k <= |markers|
    decreases |markers| - k
  {
    if k == |markers| then None
    else if OccursAt(s, i, markers[k], cls) then
      var j := i + |markers[k]|;
      Some(Hit(i, k, s[j..j + RunLength(s, j, cls)]))
    else TryAt(s, i, markers, k + 1, cls)
  }

  /** Attempts at positions `i`, `i+1`, ...; the first attempt that succeeds is the match. */
  function SearchFrom(s: string, i: nat, markers: seq<string>, cls: CharClass): Option<Hit>
    requires i <= |s|
    decreases |s| - i
  {
    if i == |s| then None
    else
      match TryAt(s, i, markers, 0, cls)
      case Some(h) => Some(h)
      case None => SearchFrom(s, i + 1, markers, cls)
  }

  /**
   * `s.match(/(?:markers[0]|markers[1]|...)([cls]+)/)`, reduced to the match's
   * position, alternative and group. It finds a match exactly when the pattern
   * occurs, and what it finds is the first match.
   */
  function FirstMatch(s: string, markers: seq<string>, cls: CharClass): (r: Option<Hit>)
    ensures r.None? <==> !Occurs(s, markers, cls)
    ensures r.Some? ==> IsFirstMatch(s, markers, cls, r.value)
  {
    SearchFromCorrect(s, 0, markers, cls);
    NotOccursIsNoneIn(s, markers, cls);
    SearchFrom(s, 0, markers, cls)
  }

  /** The attempt fails exactly when no remaining alternative occurs at `i`. */
  lemma {:induction false} TryAtFails(s: string, i: nat, markers: seq<string>, k: nat, cls: CharClass)
    requires k <= |markers|
    ensures TryAt(s, i, markers, k, cls).None? <==> NoAltAt(s, i, markers, k, |markers|, cls)
    decreases |markers| - k
  {
    if k < |markers| {
      NoAltAtStep(s, i, markers, k, |markers|, cls);
      if !OccursAt(s, i, markers[k], cls) {
        TryAtFails(s, i, markers, k + 1, cls);
      }
    }
  }

  /** When alternative `k` occurs at `i`, the attempt stops there with its greedy group. */
  lemma TryAtHit(s: string, i: nat, markers: seq<string>, k: nat, cls: CharClass)
    requires k < |markers| && OccursAt(s, i, markers[k], cls)
    ensures TryAt(s, i, markers, k, cls).Some?
    ensures var h := TryAt(s, i, markers, k, cls).value; h.pos == i && h.alt == k && IsMatch(s, markers, cls, h)
  {
    var j := i + |markers[k]|;
    var n := RunLength(s, j, cls);
    assert n > 0;
    var h := Hit(i, k, s[j..j + n]);
    assert TryAt(s, i, markers, k, cls) == Some(h);
    RunIsMaximal(s, j, cls);
    assert IsMaximalRun(s, j, h.id, cls);
  }

  /** A successful attempt is a greedy match at `i` of the first remaining alternative that occurs there. */
  lemma {:induction false} TryAtFinds(s: string, i: nat, markers: seq<string>, k: nat, cls: CharClass)
    requires k <= |markers|
    ensures TryAt(s, i, markers, k, cls).Some? ==>
              var h := TryAt(s, i, markers, k, cls).value;
              && h.pos == i && k <= h.alt
              && IsMatch(s, markers, cls, h)
              && NoAltAt(s, i, markers, k, h.alt, cls)
    decreases |markers| - k
  {
    if k < |markers| {
      if OccursAt(s, i, markers[k], cls) {
        TryAtHit(s, i, markers, k, cls);
      } else {
        assert TryAt(s, i, markers, k, cls) == TryAt(s, i, markers, k + 1, cls);
        TryAtFinds(s, i, markers, k + 1, cls);
        var r := TryAt(s, i, markers, k + 1, cls);
        if r.Some? {
          NoAltAtStep(s, i, markers, k, r.value.alt, cls);
        }
      }
    }
  }

  lemma {:induction false} SearchFromCorrect(s: string, i: nat, markers: seq<string>, cls: CharClass)
    requires i <= |s|
    ensures SearchFrom(s, i, markers, cls).None? <==> NoneIn(s, i, |s|, markers, cls)
    ensures SearchFrom(s, i, markers, cls).Some? ==>
              var h := SearchFrom(s, i, markers, cls).value;
              && i <= h.pos
              && IsMatch(s, markers, cls, h)
              && NoneIn(s, i, h.pos, markers, cls)
              && NoAltAt(s, h.pos, markers, 0, h.alt, cls)
    decreases |s| - i
  {
    if i < |s| {
      TryAtFails(s, i, markers, 0, cls);
      TryAtFinds(s, i, markers, 0, cls);
      NoneInStep(s, i, |s|, markers, cls);
      var t := TryAt(s, i, markers, 0, cls);
      if t.None? {
        SearchFromCorrect(s, i + 1, markers, cls);
        assert SearchFrom(s, i, markers, cls) == SearchFrom(s, i + 1, markers, cls);
        var r := SearchFrom(s, i, markers, cls);
        if r.Some? && i < r.value.pos {
          NoneInStep(s, i, r.value.pos, markers, cls);
        }
      }
    }
  }

  /** Two maximal runs at the same place are the same run. */
  lemma MaximalRunUnique(s: string, j: nat, a: string, b: string, cls: CharClass)
    requires IsMaximalRun(s, j, a, cls) && IsMaximalRun(s, j, b, cls)
    ensures a == b
  {
    forall k | j <= k < j + |a| ensures InClass(cls, s[k]) {
      assert s[k] == s[j..j + |a|][k - j];
    }
    forall k | j <= k < j + |b| ensures InClass(cls, s[k]) {
      assert s[k] == s[j..j + |b|][k - j];
    }
    assert |a| == |b|;
  }

  /** A match is evidence that the pattern occurs at its position. */
  lemma MatchOccurs(s: string, markers: seq<string>, cls: CharClass, h: Hit)
    requires IsMatch(s, markers, cls, h)
    ensures OccursAt(s, h.pos, markers[h.alt], cls)
  {
    var j := h.pos + |markers[h.alt]|;
    assert s[j] == s[j..j + |h.id|][0] == h.id[0];
  }

  /** The declarative description pins down the match: there is only one first match. */
  lemma FirstMatchUnique(s: string, markers: seq<string>, cls: CharClass, h1: Hit, h2: Hit)
    requires IsFirstMatch(s, markers, cls, h1) && IsFirstMatch(s, markers, cls, h2)
    ensures h1 == h2
  {
    MatchOccurs(s, markers, cls, h1);
    MatchOccurs(s, markers, cls, h2);
    assert h1.pos < h2.pos ==> NoAltAt(s, h1.pos, markers, 0, |markers|, cls);
    assert h2.pos < h1.pos ==> NoAltAt(s, h2.pos, markers, 0, |markers|, cls);
    assert h1.pos == h2.pos;
    assert h1.alt == h2.alt;
    MaximalRunUnique(s, h1.pos + |markers[h1.alt]|, h1.id, h2.id, cls);
  }

  /** The first match, when there is one, is the one `FirstMatch` returns. */
  lemma FirstMatchIs(s: string, markers: seq<string>, cls: CharClass, h: Hit)
    requires IsFirstMatch(s, markers, cls, h)
    ensures FirstMatch(s, markers, cls) == Some(h)
  {
    MatchOccurs(s, markers, cls, h);
    FirstMatchUnique(s, markers, cls, h, FirstMatch(s, markers, cls).value);
  }

  // ---------------------------------------------------------------------
  // The three providers and getEmbedUrl
  // ---------------------------------------------------------------------

  datatype Provider = YouTube | Vimeo | Drive

  /** The alternatives of each provider's pattern, in the order they are written. */
  function Markers(p: Provider): seq<string> {
    match p
    case YouTube => ["youtube.com/watch?v=", "youtu.be/", "youtube.com/embed/"]
    case Vimeo => ["vimeo.com/"]
    case Drive => ["drive.google.com/file/d/"]
  }

  /** The class of the captured identifier. */
  function IdClass(p: Provider): CharClass {
    match p
    case YouTube => IdChars
    case Vimeo => Digits
    case Drive => IdChars
  }

  const Https := "https://"

  /** What comes before the identifier in an embed URL. */
  function Prefix(p: Provider): string {
    match p
    case YouTube => "https://www.youtube.com/embed/"
    case Vimeo => "https://player.vimeo.com/video/"
    case Drive => "https://drive.google.com/file/d/"
  }

  /** Every embed URL is served over `https`. */
  lemma PrefixIsHttps(p: Provider)
    ensures |Prefix(p)| >= 8 && Prefix(p)[..8] == Https
  {
  }

  function Suffix(p: Provider): string {
    match p
    case YouTube => "?autoplay=1&rel=0&modestbranding=1"
    case Vimeo => "?autoplay=1&color=e53e3e"
    case Drive => "/preview"
  }

  /** The embed URL built around an extracted identifier. */
  function EmbedSrc(p: Provider, id: string): (src: string)
    ensures StartsAt(src, 0, Https)
  {
    PrefixIsHttps(p);
    assert (Prefix(p) + id + Suffix(p))[..8] == Prefix(p)[..8];
    Prefix(p) + id + Suffix(p)
  }

  /** The provider whose pattern decides the result, in priority order, with the captured identifier. */
  function Classify(url: string): (r: Option<(Provider, string)>)
    ensures r.None? <==>
              && !Occurs(url, Markers(YouTube), IdClass(YouTube))
              && !Occurs(url, Markers(Vimeo), IdClass(Vimeo))
              && !Occurs(url, Markers(Drive), IdClass(Drive))
    ensures r.Some? ==>
              var (p, id) := r.value;
              && Occurs(url, Markers(p), IdClass(p))
              && (p != YouTube ==> !Occurs(url, Markers(YouTube), IdClass(YouTube)))
              && (p == Drive ==> !Occurs(url, Markers(Vimeo), IdClass(Vimeo)))
              && 0 < |id|
              && (forall k :: 0 <= k < |id| ==> InClass(IdClass(p), id[k]))
  {
    match FirstMatch(url, Markers(YouTube), IdClass(YouTube))
    case Some(h) => Some((YouTube, h.id))
    case None =>
      match FirstMatch(url, Markers(Vimeo), IdClass(Vimeo))
      case Some(h) => Some((Vimeo, h.id))
      case None =>
        match FirstMatch(url, Markers(Drive), IdClass(Drive))
        case Some(h) => Some((Drive, h.id))
        case None => None
  }

  datatype Player = Iframe | Video

  /** `{type, src}` of the source. */
  datatype Embed = Embed(player: Player, src: string)

  function GetEmbedUrl(url: string): (r: Embed)
    ensures r.player == Video ==> r.src == url
    ensures r.player == Iframe ==> StartsAt(r.src, 0, Https)
  {
    match Classify(url)
    case Some((p, id)) => Embed(Iframe, EmbedSrc(p, id))
    case None => Embed(Video, url)
  }

  // ---------------------------------------------------------------------
  // Reading an embed URL back
  // ---------------------------------------------------------------------

  /** `src` is `Prefix(p) + something + Suffix(p)`. */
  predicate Wraps(src: string, p: Provider) {
    && |Prefix(p)| + |Suffix(p)| <= |src|
    && src[..|Prefix(p)|] == Prefix(p)
    && src[|src| - |Suffix(p)|..] == Suffix(p)
  }

  /** The provider and identifier an embed URL was built from: the inverse of `EmbedSrc`. */
  function DecodeSrc(src: string): Option<(Provider, string)> {
    if Wraps(src, YouTube) then Some((YouTube, src[|Prefix(YouTube)|..|src| - |Suffix(YouTube)|]))
    else if Wraps(src, Vimeo) then Some((Vimeo, src[|Prefix(Vimeo)|..|src| - |Suffix(Vimeo)|]))
    else if Wraps(src, Drive) then Some((Drive, src[|Prefix(Drive)|..|src| - |Suffix(Drive)|]))
    else None
  }

  /** The three prefixes part ways at index 8 (`w`, `p`, `d`), so an embed URL wraps for one provider only. */
  lemma WrapsOnly(p: Provider, id: string, q: Provider)
    requires Wraps(EmbedSrc(p, id), q)
    ensures q == p
  {
    var src := EmbedSrc(p, id);
    EmbedSrcLayout(p, id);
    PrefixTag(p);
    PrefixTag(q);
    assert src[8] == src[..|Prefix(p)|][8] == Prefix(p)[8];
    assert src[8] == src[..|Prefix(q)|][8] == Prefix(q)[8];
  }

  /** The character after `https://` in each prefix. */
  lemma PrefixTag(p: Provider)
    ensures |Prefix(p)| > 8
    ensures Prefix(p)[8] == match p case YouTube => 'w' case Vimeo => 'p' case Drive => 'd'
  {
  }

  lemma {:induction false} DecodeEmbedSrc(p: Provider, id: string)
    ensures DecodeSrc(EmbedSrc(p, id)) == Some((p, id))
  {
    var src := EmbedSrc(p, id);
    assert src[..|Prefix(p)|] == Prefix(p);
    assert src[|src| - |Suffix(p)|..] == Suffix(p);
    assert src[|Prefix(p)|..|src| - |Suffix(p)|] == id;
    assert Wraps(src, p);
    if Wraps(src, YouTube) { WrapsOnly(p, id, YouTube); }
    if Wraps(src, Vimeo) { WrapsOnly(p, id, Vimeo); }
  }

  // ---------------------------------------------------------------------
  // Properties of getEmbedUrl
  // ---------------------------------------------------------------------

  /** A direct `video` source is chosen exactly when none of the three patterns occurs; it is the URL unchanged. */
  lemma DirectVideoExactlyWhenNoPattern(url: string)
    ensures GetEmbedUrl(url).player == Video <==>
              && !Occurs(url, Markers(YouTube), IdClass(YouTube))
              && !Occurs(url, Markers(Vimeo), IdClass(Vimeo))
              && !Occurs(url, Markers(Drive), IdClass(Drive))
    ensures GetEmbedUrl(url).player == Video ==> GetEmbedUrl(url).src == url
  {
  }

  /** A YouTube match wins whatever else occurs: the embed is built from the first YouTube match's identifier. */
  lemma YouTubeTakesPrecedence(url: string, h: Hit)
    requires IsFirstMatch(url, Markers(YouTube), IdChars, h)
    ensures GetEmbedUrl(url) == Embed(Iframe, EmbedSrc(YouTube, h.id))
  {
    FirstMatchIs(url, Markers(YouTube), IdChars, h);
  }

  /** Without a YouTube match, a Vimeo match gives the Vimeo player for its digits. */
  lemma VimeoUnlessYouTube(url: string, h: Hit)
    requires !Occurs(url, Markers(YouTube), IdChars)
    requires IsFirstMatch(url, Markers(Vimeo), Digits, h)
    ensures GetEmbedUrl(url) == Embed(Iframe, EmbedSrc(Vimeo, h.id))
  {
    FirstMatchIs(url, Markers(Vimeo), Digits, h);
  }

  /** Drive is used only when neither YouTube nor Vimeo matches. */
  lemma DriveOnlyAsLastResort(url: string, h: Hit)
    requires !Occurs(url, Markers(YouTube), IdChars)
    requires !Occurs(url, Markers(Vimeo), Digits)
    requires IsFirstMatch(url, Markers(Drive), IdChars, h)
    ensures GetEmbedUrl(url) == Embed(Iframe, EmbedSrc(Drive, h.id))
  {
    FirstMatchIs(url, Markers(Drive), IdChars, h);
  }

  /**
   * Every `iframe` result is an embed URL that names its provider and a
   * non-empty identifier of that provider's class, and both can be read back
   * from it; the provider is one whose pattern occurs in the input, and no
   * higher-priority pattern occurs.
   */
  lemma IframeSrcShape(url: string)
    ensures GetEmbedUrl(url).player == Iframe ==>
              && DecodeSrc(GetEmbedUrl(url).src) == Classify(url)
              && Classify(url).Some?
              && var (p, id) := Classify(url).value;
              && GetEmbedUrl(url).src == EmbedSrc(p, id)
              && 0 < |id|
              && (forall k :: 0 <= k < |id| ==> InClass(IdClass(p), id[k]))
              && Occurs(url, Markers(p), IdClass(p))
              && (p != YouTube ==> !Occurs(url, Markers(YouTube), IdClass(YouTube)))
              && (p == Drive ==> !Occurs(url, Markers(Vimeo), IdClass(Vimeo)))
  {
    if Classify(url).Some? {
      var (p, id) := Classify(url).value;
      DecodeEmbedSrc(p, id);
    }
  }

  /**
   * The identifier need not occur only once in the embed URL: a one-letter
   * YouTube identifier `w` also occurs three times in `www`.
   */
  lemma IdMayRecurInSrc()
    ensures GetEmbedUrl("youtu.be/w").src == EmbedSrc(YouTube, "w")
    ensures EmbedSrc(YouTube, "w")[8] == 'w' && EmbedSrc(YouTube, "w")[30] == 'w'
  {
    ShortLinkMatch();
    YouTubeTakesPrecedence("youtu.be/w", Hit(0, 1, "w"));
    var src := EmbedSrc(YouTube, "w");
    EmbedSrcLayout(YouTube, "w");
    PrefixTag(YouTube);
    assert src[8] == src[..30][8];
    assert src[30] == src[30..31][0];
  }

  /** In `youtu.be/w` the short-link alternative matches at 0 and captures `w`. */
  lemma ShortLinkMatch()
    ensures IsFirstMatch("youtu.be/w", Markers(YouTube), IdChars, Hit(0, 1, "w"))
  {
    var url := "youtu.be/w";
    var ms := Markers(YouTube);
    assert url[0..9] == ms[1];
    assert url[9..10] == "w";
    MismatchBlocks(url, 0, ms[0], 5, IdChars);
  }

  // ---------------------------------------------------------------------
  // Feeding an embed URL back in
  // ---------------------------------------------------------------------

  /** A marker cannot occur where the text differs from it (or ends) at some offset. */
  lemma MismatchBlocks(s: string, j: nat, marker: string, k: nat, cls: CharClass)
    requires k < |marker| && (j + k >= |s| || s[j + k] != marker[k])
    ensures !OccursAt(s, j, marker, cls)
  {
    if j + |marker| <= |s| {
      assert s[j..j + |marker|][k] == s[j + k];
    }
  }

  /** Every marker contains a `.`, so none can start where no `.` follows. */
  lemma NoDotNoOccurrence(s: string, lo: nat, p: Provider)
    requires forall k :: lo <= k < |s| ==> s[k] != '.'
    ensures forall j, m :: lo <= j && 0 <= m < |Markers(p)| ==> !OccursAt(s, j, Markers(p)[m], IdClass(p))
  {
    forall j, m | lo <= j && 0 <= m < |Markers(p)| ensures !OccursAt(s, j, Markers(p)[m], IdClass(p)) {
      var dot := if p == YouTube && m != 1 then 7 else 5;
      assert Markers(p)[m][dot] == '.';
      MismatchBlocks(s, j, Markers(p)[m], dot, IdClass(p));
    }
  }

  /** The characters of an identifier are never a `.`. */
  lemma IdHasNoDot(p: Provider, id: string)
    requires forall k :: 0 <= k < |id| ==> InClass(IdClass(p), id[k])
    ensures forall k :: 0 <= k < |id| ==> id[k] != '.'
  {
  }

  /** No YouTube alternative occurs in `https://www.`, the first 12 characters of a YouTube embed URL. */
  lemma YouTubeSrcNoEarlierMatch(id: string)
    ensures NoneIn(EmbedSrc(YouTube, id), 0, 12, Markers(YouTube), IdChars)
  {
    var src := EmbedSrc(YouTube, id);
    var ms := Markers(YouTube);
    EmbedSrcLayout(YouTube, id);
    var www := src[..30][..12];
    assert www == "https://www.";
    forall j: nat | j < 12 ensures NoAltAt(src, j, ms, 0, |ms|, IdChars) {
      assert src[j] == www[j] != 'y';
      forall m | 0 <= m < |ms| ensures !OccursAt(src, j, ms[m], IdChars) {
        MismatchBlocks(src, j, ms[m], 0, IdChars);
      }
    }
  }

  /** An embed URL is its prefix, the identifier and its suffix, each where expected. */
  lemma EmbedSrcLayout(p: Provider, id: string)
    ensures var src := EmbedSrc(p, id); var n := |Prefix(p)|;
      && |src| == n + |id| + |Suffix(p)|
      && src[..n] == Prefix(p)
      && src[n..n + |id|] == id
      && src[n + |id|..] == Suffix(p)
  {
  }

  /** At 12, `youtube.com/embed/` is followed by the identifier and then `?`. */
  lemma YouTubeSrcMatchAt12(id: string)
    requires 0 < |id| && forall k :: 0 <= k < |id| ==> InClass(IdChars, id[k])
    ensures IsMatch(EmbedSrc(YouTube, id), Markers(YouTube), IdChars, Hit(12, 2, id))
  {
    var src := EmbedSrc(YouTube, id);
    var ms := Markers(YouTube);
    EmbedSrcLayout(YouTube, id);
    assert src[12..30] == src[..30][12..30] == ms[2];
    assert src[30 + |id|] == src[30 + |id|..][0] == '?';
  }

  /** At 12, neither `youtube.com/watch?v=` nor `youtu.be/` occurs. */
  lemma YouTubeSrcOthersFailAt12(id: string)
    ensures NoAltAt(EmbedSrc(YouTube, id), 12, Markers(YouTube), 0, 2, IdChars)
  {
    var src := EmbedSrc(YouTube, id);
    var ms := Markers(YouTube);
    EmbedSrcLayout(YouTube, id);
    assert src[24] == src[..30][24] == 'e';
    assert src[17] == src[..30][17] == 'b';
    MismatchBlocks(src, 12, ms[0], 12, IdChars);
    MismatchBlocks(src, 12, ms[1], 5, IdChars);
  }

  /** A YouTube embed URL resolves to itself: its first YouTube match is the `youtube.com/embed/` one. */
  lemma YouTubeSrcStable(id: string)
    requires 0 < |id| && forall k :: 0 <= k < |id| ==> InClass(IdChars, id[k])
    ensures GetEmbedUrl(EmbedSrc(YouTube, id)) == Embed(Iframe, EmbedSrc(YouTube, id))
  {
    YouTubeSrcNoEarlierMatch(id);
    YouTubeSrcMatchAt12(id);
    YouTubeSrcOthersFailAt12(id);
    YouTubeTakesPrecedence(EmbedSrc(YouTube, id), Hit(12, 2, id));
  }

  /** No occurrence of a provider's pattern: none before `lo`, and no `.` from `lo` on. */
  lemma NoOccurrence(s: string, lo: nat, p: Provider)
    requires forall k :: lo <= k < |s| ==> s[k] != '.'
    requires forall j, m :: 0 <= j < lo && 0 <= m < |Markers(p)| ==> !OccursAt(s, j, Markers(p)[m], IdClass(p))
    ensures !Occurs(s, Markers(p), IdClass(p))
  {
    NoDotNoOccurrence(s, lo, p);
  }

  /** Past index 20 (the `.` of `google`), a Drive preview URL has no `.`. */
  lemma DriveSrcDotFree(id: string)
    requires forall k :: 0 <= k < |id| ==> InClass(IdChars, id[k])
    ensures forall k :: 21 <= k < |EmbedSrc(Drive, id)| ==> EmbedSrc(Drive, id)[k] != '.'
  {
    var src := EmbedSrc(Drive, id);
    assert src[..32] == Prefix(Drive);
    IdHasNoDot(Drive, id);
    forall k | 21 <= k < |src| ensures src[k] != '.' {
      if k < 32 {
        assert src[k] == src[..32][k];
      } else if k < 32 + |id| {
        assert src[k] == id[k - 32];
      } else {
        assert src[k] == Suffix(Drive)[k - 32 - |id|];
      }
    }
  }

  /** Past index 20 (the `.` of `vimeo.com`), a Vimeo player URL has no `.`. */
  lemma VimeoSrcDotFree(id: string)
    requires forall k :: 0 <= k < |id| ==> InClass(Digits, id[k])
    ensures forall k :: 21 <= k < |EmbedSrc(Vimeo, id)| ==> EmbedSrc(Vimeo, id)[k] != '.'
  {
    var src := EmbedSrc(Vimeo, id);
    assert src[..31] == Prefix(Vimeo);
    IdHasNoDot(Vimeo, id);
    forall k | 21 <= k < |src| ensures src[k] != '.' {
      if k < 31 {
        assert src[k] == src[..31][k];
      } else if k < 31 + |id| {
        assert src[k] == id[k - 31];
      } else {
        assert src[k] == Suffix(Vimeo)[k - 31 - |id|];
      }
    }
  }

  /** The first 21 characters of a Drive or Vimeo embed URL. */
  lemma SrcHead(p: Provider, id: string)
    requires p != YouTube
    ensures |EmbedSrc(p, id)| >= 21
    ensures p == Drive ==> EmbedSrc(p, id)[..21] == "https://drive.google."
    ensures p == Vimeo ==> EmbedSrc(p, id)[..21] == "https://player.vimeo."
  {
    EmbedSrcLayout(p, id);
    assert EmbedSrc(p, id)[..21] == EmbedSrc(p, id)[..|Prefix(p)|][..21];
  }

  lemma DriveSrcHasNoYouTube(id: string)
    requires forall k :: 0 <= k < |id| ==> InClass(IdChars, id[k])
    ensures !Occurs(EmbedSrc(Drive, id), Markers(YouTube), IdChars)
  {
    var src := EmbedSrc(Drive, id);
    var ms := Markers(YouTube);
    SrcHead(Drive, id);
    var head := src[..21];
    assert head == "https://drive.google.";
    DriveSrcDotFree(id);
    forall j, m | 0 <= j < 21 && 0 <= m < |ms| ensures !OccursAt(src, j, ms[m], IdChars) {
      assert src[j] == head[j] != 'y';
      MismatchBlocks(src, j, ms[m], 0, IdChars);
    }
    NoOccurrence(src, 21, YouTube);
  }

  lemma DriveSrcHasNoVimeo(id: string)
    requires forall k :: 0 <= k < |id| ==> InClass(IdChars, id[k])
    ensures !Occurs(EmbedSrc(Drive, id), Markers(Vimeo), Digits)
  {
    var src := EmbedSrc(Drive, id);
    var ms := Markers(Vimeo);
    SrcHead(Drive, id);
    var head := src[..21];
    assert head == "https://drive.google.";
    DriveSrcDotFree(id);
    forall j, m | 0 <= j < 21 && 0 <= m < |ms| ensures !OccursAt(src, j, ms[m], Digits) {
      if j == 11 {
        assert src[12] == head[12] != ms[m][1];
        MismatchBlocks(src, j, ms[m], 1, Digits);
      } else {
        assert src[j] == head[j] != 'v';
        MismatchBlocks(src, j, ms[m], 0, Digits);
      }
    }
    NoOccurrence(src, 21, Vimeo);
  }

  /** No Drive alternative occurs in `https://`, the first 8 characters of a Drive preview URL. */
  lemma DriveSrcNoEarlierMatch(id: string)
    ensures NoneIn(EmbedSrc(Drive, id), 0, 8, Markers(Drive), IdChars)
  {
    var src := EmbedSrc(Drive, id);
    var ms := Markers(Drive);
    SrcHead(Drive, id);
    var head := src[..21];
    forall j: nat | j < 8 ensures NoAltAt(src, j, ms, 0, |ms|, IdChars) {
      assert src[j] == head[j] != 'd';
      MismatchBlocks(src, j, ms[0], 0, IdChars);
    }
  }

  /** At 8, `drive.google.com/file/d/` is followed by the identifier and then `/`. */
  lemma DriveSrcMatchAt8(id: string)
    requires 0 < |id| && forall k :: 0 <= k < |id| ==> InClass(IdChars, id[k])
    ensures IsMatch(EmbedSrc(Drive, id), Markers(Drive), IdChars, Hit(8, 0, id))
  {
    var src := EmbedSrc(Drive, id);
    var ms := Markers(Drive);
    EmbedSrcLayout(Drive, id);
    assert src[8..32] == src[..32][8..32] == ms[0];
    assert src[32 + |id|] == src[32 + |id|..][0] == '/';
  }

  /** A Drive preview URL resolves to itself. */
  lemma DriveSrcStable(id: string)
    requires 0 < |id| && forall k :: 0 <= k < |id| ==> InClass(IdChars, id[k])
    ensures GetEmbedUrl(EmbedSrc(Drive, id)) == Embed(Iframe, EmbedSrc(Drive, id))
  {
    DriveSrcHasNoYouTube(id);
    DriveSrcHasNoVimeo(id);
    DriveSrcNoEarlierMatch(id);
    DriveSrcMatchAt8(id);
    DriveOnlyAsLastResort(EmbedSrc(Drive, id), Hit(8, 0, id));
  }

  lemma VimeoSrcHasNoYouTube(id: string)
    requires forall k :: 0 <= k < |id| ==> InClass(Digits, id[k])
    ensures !Occurs(EmbedSrc(Vimeo, id), Markers(YouTube), IdChars)
  {
    var src := EmbedSrc(Vimeo, id);
    var ms := Markers(YouTube);
    SrcHead(Vimeo, id);
    var head := src[..21];
    assert head == "https://player.vimeo.";
    VimeoSrcDotFree(id);
    forall j, m | 0 <= j < 21 && 0 <= m < |ms| ensures !OccursAt(src, j, ms[m], IdChars) {
      if j == 11 {
        assert src[12] == head[12] != ms[m][1];
        MismatchBlocks(src, j, ms[m], 1, IdChars);
      } else {
        assert src[j] == head[j] != 'y';
        MismatchBlocks(src, j, ms[m], 0, IdChars);
      }
    }
    NoOccurrence(src, 21, YouTube);
  }

  lemma VimeoSrcHasNoVimeo(id: string)
    requires forall k :: 0 <= k < |id| ==> InClass(Digits, id[k])
    ensures !Occurs(EmbedSrc(Vimeo, id), Markers(Vimeo), Digits)
  {
    var src := EmbedSrc(Vimeo, id);
    var ms := Markers(Vimeo);
    SrcHead(Vimeo, id);
    var head := src[..21];
    assert head == "https://player.vimeo.";
    VimeoSrcDotFree(id);
    assert src[25] == 'v';
    forall j, m | 0 <= j < 21 && 0 <= m < |ms| ensures !OccursAt(src, j, ms[m], Digits) {
      if j != 15 {
        assert src[j] == head[j] != 'v';
        MismatchBlocks(src, j, ms[m], 0, Digits);
      }
    }
    NoOccurrence(src, 21, Vimeo);
  }

  lemma VimeoSrcHasNoDrive(id: string)
    requires forall k :: 0 <= k < |id| ==> InClass(Digits, id[k])
    ensures !Occurs(EmbedSrc(Vimeo, id), Markers(Drive), IdChars)
  {
    var src := EmbedSrc(Vimeo, id);
    var ms := Markers(Drive);
    SrcHead(Vimeo, id);
    var head := src[..21];
    assert head == "https://player.vimeo.";
    VimeoSrcDotFree(id);
    forall j, m | 0 <= j < 21 && 0 <= m < |ms| ensures !OccursAt(src, j, ms[m], IdChars) {
      assert src[j] == head[j] != 'd';
      MismatchBlocks(src, j, ms[m], 0, IdChars);
    }
    NoOccurrence(src, 21, Drive);
  }

  /**
   * A Vimeo player URL is not recognised: `vimeo.com/` in it is followed by
   * `video/`, not by digits, so it is played directly, unchanged.
   */
  lemma VimeoSrcPlayedDirectly(id: string)
    requires forall k :: 0 <= k < |id| ==> InClass(Digits, id[k])
    ensures GetEmbedUrl(EmbedSrc(Vimeo, id)) == Embed(Video, EmbedSrc(Vimeo, id))
  {
    VimeoSrcHasNoYouTube(id);
    VimeoSrcHasNoVimeo(id);
    VimeoSrcHasNoDrive(id);
    DirectVideoExactlyWhenNoPattern(EmbedSrc(Vimeo, id));
  }

  /** Resolving the `src` of a result again gives back the same `src`. */
  lemma EmbedSrcIsStable(url: string)
    ensures GetEmbedUrl(GetEmbedUrl(url).src).src == GetEmbedUrl(url).src
  {
    IframeSrcShape(url);
    if Classify(url).Some? {
      var (p, id) := Classify(url).value;
      match p
      case YouTube => YouTubeSrcStable(id);
      case Vimeo => VimeoSrcPlayedDirectly(id);
      case Drive => DriveSrcStable(id);
    }
  }
}
