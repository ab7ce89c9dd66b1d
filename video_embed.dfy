/** The video block of the lesson page: a YouTube or Vimeo URL becomes an
    embedded player, found by a `preg_match` that pulls the video id out of
    the URL; any other URL becomes a link. */
module VideoEmbed {
  import opened Domain

  /** `str_contains(s, sub)`. */
  predicate Contains(s: string, sub: string) {
    exists i: nat | i + |sub| <= |s| :: OccursAt(s, i, sub)
  }

  predicate OccursAt(s: string, i: nat, sub: string) {
    i + |sub| <= |s| && s[i..i + |sub|] == sub
  }

  /** `[a-zA-Z0-9_-]`. */
  predicate IsIdChar(c: char) {
    ('a' <= c <= 'z') || ('A' <= c <= 'Z') || ('0' <= c <= '9') || c == '_' || c == '-'
  }

  /** `\d`. */
  predicate IsDigit(c: char) {
    '0' <= c <= '9'
  }

  /** The pattern `(?:a1|a2|...)(cls+)` starts to match at `i` through
      alternative `a`: `a` occurs at `i` and one character of the class follows. */
  predicate MatchesAt(s: string, i: nat, a: string, cls: char -> bool) {
    i + |a| < |s| && s[i..i + |a|] == a && cls(s[i + |a|])
  }

  /** How many characters of the class follow position `i`: the greedy `+`. */
  function RunLength(s: string, i: nat, cls: char -> bool): (n: nat)
    requires i <= |s|
    ensures i + n <= |s|
    ensures forall k :: i <= k < i + n ==> cls(s[k])
    ensures i + n == |s| || !cls(s[i + n])
    decreases |s| - i
  {
    if i == |s| || !cls(s[i]) then 0 else 1 + RunLength(s, i + 1, cls)
  }

  /** A match: where it starts, which alternative matched, and the captured group. */
  datatype Match = Match(start: nat, alt: nat, group: string)

  /** The first alternative, from `k` on, that matches at `i`. */
  function MatchAlternative(s: string, i: nat, alts: seq<string>, k: nat, cls: char -> bool): (r: Option<nat>)
    requires k <= |alts|
    ensures r.Some? ==> k <= r.value < |alts| && MatchesAt(s, i, alts[r.value], cls)
    ensures r.Some? ==> forall m :: k <= m < r.value ==> !MatchesAt(s, i, alts[m], cls)
    ensures r.None? <==> forall m :: k <= m < |alts| ==> !MatchesAt(s, i, alts[m], cls)
    decreases |alts| - k
  {
    if k == |alts| then None
    else if MatchesAt(s, i, alts[k], cls) then Some(k)
    else MatchAlternative(s, i, alts, k + 1, cls)
  }

  /** No alternative starts a match at any position from `i` up to `j`. */
  ghost predicate NoMatchBetween(s: string, i: nat, j: nat, alts: seq<string>, cls: char -> bool) {
    forall p, k :: i <= p < j && 0 <= k < |alts| ==> !MatchesAt(s, p, alts[k], cls)
  }

  /** `g` is the longest non-empty run of the class that starts at `from`. */
  ghost predicate LongestRun(s: string, from: nat, g: string, cls: char -> bool) {
    && from + |g| <= |s|
    && g == s[from..from + |g|]
    && |g| > 0
    && (forall c :: 0 <= c < |g| ==> cls(g[c]))
    && (from + |g| == |s| || !cls(s[from + |g|]))
  }

  /** The match of alternative `k` at `i`, with the greedy run after it as
      the captured group. */
  function Captured(s: string, i: nat, alts: seq<string>, k: nat, cls: char -> bool): (m: Match)
    requires k < |alts| && MatchesAt(s, i, alts[k], cls)
    ensures m.start == i && m.alt == k
    ensures LongestRun(s, i + |alts[k]|, m.group, cls)
  {
    var from := i + |alts[k]|;
    var n := RunLength(s, from, cls);
    var group := s[from..from + n];
    assert forall c :: 0 <= c < |group| ==> group[c] == s[from + c];
    Match(i, k, group)
  }

  /** `preg_match` from position `i` on: the leftmost start with a match, the
      first alternative that matches there, and the longest run after it. */
  function Search(s: string, i: nat, alts: seq<string>, cls: char -> bool): (r: Option<Match>)
    requires i <= |s|
    ensures r.Some? ==> var m := r.value;
      && i <= m.start && m.alt < |alts| && MatchesAt(s, m.start, alts[m.alt], cls)
      && (forall k :: 0 <= k < m.alt ==> !MatchesAt(s, m.start, alts[k], cls))
      && NoMatchBetween(s, i, m.start, alts, cls)
      && LongestRun(s, m.start + |alts[m.alt]|, m.group, cls)
    ensures r.None? <==> NoMatchBetween(s, i, |s| + 1, alts, cls)
    decreases |s| - i
  {
    match MatchAlternative(s, i, alts, 0, cls)
    case Some(k) => Some(Captured(s, i, alts, k, cls))
    case None =>
      if i == |s| then
        NoMatchAt(s, i, |s| + 1, alts, cls);
        None
      else
        var r := Search(s, i + 1, alts, cls);
        NoMatchAt(s, i, if r.Some? then r.value.start else |s| + 1, alts, cls);
        r
  }

  /** A position where no alternative matches extends a match-free stretch. */
  lemma NoMatchAt(s: string, i: nat, j: nat, alts: seq<string>, cls: char -> bool)
    requires i < j
    requires forall k :: 0 <= k < |alts| ==> !MatchesAt(s, i, alts[k], cls)
    ensures NoMatchBetween(s, i, j, alts, cls) <==> NoMatchBetween(s, i + 1, j, alts, cls)
  {
  }

  /** `$videoId = ''; if (preg_match(...)) $videoId = $matches[1];` */
  function VideoId(url: string, alts: seq<string>, cls: char -> bool): (id: string)
    ensures forall c :: 0 <= c < |id| ==> cls(id[c])
    ensures id == "" <==> NoMatchBetween(url, 0, |url| + 1, alts, cls)
  {
    match Search(url, 0, alts, cls)
    case None => ""
    case Some(m) => m.group
  }

  const YouTubePatterns: seq<string> := ["youtube.com/watch?v=", "youtu.be/"]
  const VimeoPatterns: seq<string> := ["vimeo.com/"]
  const YouTubeEmbed := "https://www.youtube.com/embed/"
  const VimeoEmbed := "https://player.vimeo.com/video/"

  function YouTubeId(url: string): string {
    VideoId(url, YouTubePatterns, IsIdChar)
  }

  function VimeoId(url: string): string {
    VideoId(url, VimeoPatterns, IsDigit)
  }

  /** What the lesson page shows above the content. */
  datatype VideoBlock =
    | NoVideo
    | Player(src: string)          // an embedded iframe
    | OpenVideoLink(href: string)  // a YouTube or Vimeo URL whose id was not found
    | WatchVideoLink(href: string) // any other URL

  function Block(kind: LessonType, videoUrl: Option<string>): VideoBlock {
    if !(kind == Video && videoUrl.Some? && !Falsy(videoUrl.value)) then NoVideo
    else
      var url := videoUrl.value;
      if Contains(url, "youtube.com") || Contains(url, "youtu.be") then
        var id := YouTubeId(url);
        if !Falsy(id) then Player(YouTubeEmbed + id) else OpenVideoLink(url)
      else if Contains(url, "vimeo.com") then
        var id := VimeoId(url);
        if !Falsy(id) then Player(VimeoEmbed + id) else OpenVideoLink(url)
      else WatchVideoLink(url)
  }

  /** A video block appears exactly for a video lesson with a truthy URL. */
  lemma BlockNeedsVideoUrl(kind: LessonType, videoUrl: Option<string>)
    ensures Block(kind, videoUrl) != NoVideo
            <==> kind == Video && videoUrl.Some? && !Falsy(videoUrl.value)
  {
  }

  /** The YouTube branch: the player shows the id after the leftmost
      `youtube.com/watch?v=` or `youtu.be/`, and the link fallback is taken
      exactly when there is no id or the id is `"0"`. A URL naming both hosts
      is treated as YouTube. */
  lemma YouTubeBranch(url: string)
    requires !Falsy(url) && (Contains(url, "youtube.com") || Contains(url, "youtu.be"))
    ensures Block(Video, Some(url)) == Player(YouTubeEmbed + YouTubeId(url))
            || Block(Video, Some(url)) == OpenVideoLink(url)
    ensures Block(Video, Some(url)) == OpenVideoLink(url) <==> Falsy(YouTubeId(url))
    ensures YouTubeId(url) == "" <==> NoMatchBetween(url, 0, |url| + 1, YouTubePatterns, IsIdChar)
  {
  }

  /** The Vimeo branch, taken only for a URL that names no YouTube host. */
  lemma VimeoBranch(url: string)
    requires !Falsy(url) && !Contains(url, "youtube.com") && !Contains(url, "youtu.be")
    requires Contains(url, "vimeo.com")
    ensures Block(Video, Some(url)) == Player(VimeoEmbed + VimeoId(url))
            || Block(Video, Some(url)) == OpenVideoLink(url)
    ensures Block(Video, Some(url)) == OpenVideoLink(url) <==> Falsy(VimeoId(url))
    ensures forall c :: 0 <= c < |VimeoId(url)| ==> IsDigit(VimeoId(url)[c])
  {
  }

  /** Any other truthy URL gives the plain "Watch Video" link. */
  lemma OtherUrls(url: string)
    requires !Falsy(url) && !Contains(url, "youtube.com") && !Contains(url, "youtu.be")
    requires !Contains(url, "vimeo.com")
    ensures Block(Video, Some(url)) == WatchVideoLink(url)
  {
  }

  /** An illustration on one input, not a general property: for a short link
      the id runs up to the first character outside the class. */
  lemma ShortLinkExample()
    ensures YouTubeId("youtu.be/ab_C-9?t=4") == "ab_C-9"
  {
    var s := "youtu.be/ab_C-9?t=4";
    assert s[0..9] == YouTubePatterns[1];
    assert !MatchesAt(s, 0, YouTubePatterns[0], IsIdChar);
    assert MatchesAt(s, 0, YouTubePatterns[1], IsIdChar);
    assert MatchAlternative(s, 0, YouTubePatterns, 0, IsIdChar) == Some(1);
    assert RunLength(s, 15, IsIdChar) == 0;
    assert RunLength(s, 13, IsIdChar) == 2;
    assert RunLength(s, 11, IsIdChar) == 4;
    assert RunLength(s, 9, IsIdChar) == 6;
    assert s[9..15] == "ab_C-9";
  }
}
