/**
 * Derivation of the transcript path from the video path (the chained
 * `replace` calls that compute `subtitlesFile` in src/CaptionedVideo/index.tsx).
 *
 * Each pattern is a regular expression `.ext$` whose dot is not escaped, so
 * it matches ANY single character (other than a line terminator) followed by
 * the extension at the very end of the path; the match, that character
 * included, is replaced by ".json".
 */
module TranscriptPath {

  const Json: string := ".json"

  /** The characters a regular-expression `.` matches without the `s` flag. */
  predicate RegexDot(c: char)
  {
    c != '\n' && c != '\r' && c != '\U{2028}' && c != '\U{2029}'
  }

  /** Whether `/.ext$/` matches `s`: one dot-character, then `ext`, at the end. */
  predicate MatchesAtEnd(s: string, ext: string)
  {
    |s| >= |ext| + 1 && s[|s| - |ext|..] == ext && RegexDot(s[|s| - |ext| - 1])
  }

  /** `s.replace(/.ext$/, '.json')`. */
  function ReplaceAtEnd(s: string, ext: string): string
  {
    if MatchesAtEnd(s, ext) then s[..|s| - |ext| - 1] + Json else s
  }

  /** The transcript path for video path `src`, as the component derives it. */
  function SubtitlesFile(src: string): string
  {
    ReplaceAtEnd(ReplaceAtEnd(ReplaceAtEnd(ReplaceAtEnd(src, "mp4"), "mkv"), "mov"), "webm")
  }

  /** A path ending in ".json" matches none of the four patterns. */
  lemma JsonMatchesNoPattern(p: string, s: string)
    requires s == p + Json
    ensures !MatchesAtEnd(s, "mp4") && !MatchesAtEnd(s, "mkv")
    ensures !MatchesAtEnd(s, "mov") && !MatchesAtEnd(s, "webm")
  {
    assert s[|s| - 1] == 'n' && s[|s| - 2] == 'o';
  }

  /**
   * The three cases of the derivation: a dot-character followed by mp4, mkv
   * or mov at the end loses four characters and gains ".json"; one followed
   * by webm loses five and gains ".json"; every other path is unchanged.
   */
  lemma SubtitlesFileCases(src: string)
    ensures (MatchesAtEnd(src, "mp4") || MatchesAtEnd(src, "mkv") || MatchesAtEnd(src, "mov"))
              ==> SubtitlesFile(src) == src[..|src| - 4] + Json
    ensures MatchesAtEnd(src, "webm") ==> SubtitlesFile(src) == src[..|src| - 5] + Json
    ensures (!MatchesAtEnd(src, "mp4") && !MatchesAtEnd(src, "mkv") && !MatchesAtEnd(src, "mov")
               && !MatchesAtEnd(src, "webm")) ==> SubtitlesFile(src) == src
  {
    var a := ReplaceAtEnd(src, "mp4");
    var b := ReplaceAtEnd(a, "mkv");
    var c := ReplaceAtEnd(b, "mov");
    if MatchesAtEnd(src, "mp4") {
      JsonMatchesNoPattern(src[..|src| - 4], a);
      JsonMatchesNoPattern(src[..|src| - 4], b);
      JsonMatchesNoPattern(src[..|src| - 4], c);
    } else if MatchesAtEnd(src, "mkv") {
      assert a == src;
      JsonMatchesNoPattern(src[..|src| - 4], b);
      JsonMatchesNoPattern(src[..|src| - 4], c);
    } else if MatchesAtEnd(src, "mov") {
      assert a == src && b == src;
      JsonMatchesNoPattern(src[..|src| - 4], c);
    } else {
      assert a == src && b == src && c == src;
    }
  }

  /** Deriving the transcript path of a transcript path changes nothing. */
  lemma SubtitlesFileIdempotent(src: string)
    ensures SubtitlesFile(SubtitlesFile(src)) == SubtitlesFile(src)
  {
    SubtitlesFileCases(src);
    var r := SubtitlesFile(src);
    SubtitlesFileCases(r);
    if r != src {
      if MatchesAtEnd(src, "webm") {
        JsonMatchesNoPattern(src[..|src| - 5], r);
      } else {
        JsonMatchesNoPattern(src[..|src| - 4], r);
      }
    }
  }

  /** Every recognised video path is sent to a ".json" path, and only those are changed. */
  lemma SubtitlesFileChangesOnlyVideoPaths(src: string)
    ensures SubtitlesFile(src) != src <==>
              MatchesAtEnd(src, "mp4") || MatchesAtEnd(src, "mkv")
              || MatchesAtEnd(src, "mov") || MatchesAtEnd(src, "webm")
    ensures SubtitlesFile(src) != src ==> SubtitlesFile(src)[|SubtitlesFile(src)| - 5..] == Json
  {
    SubtitlesFileCases(src);
    var r := SubtitlesFile(src);
    if MatchesAtEnd(src, "mp4") || MatchesAtEnd(src, "mkv") || MatchesAtEnd(src, "mov") {
      assert src[|src| - 1] != 'n';
      assert r[|r| - 1] == 'n';
    } else if MatchesAtEnd(src, "webm") {
      assert src[|src| - 1] != 'n';
      assert r[|r| - 1] == 'n';
    }
  }

  /** "clip.mp4" becomes "clip.json". */
  lemma Mp4Example()
    ensures SubtitlesFile("clip.mp4") == "clip.json"
  {
    var s := "clip.mp4";
    assert s[5..] == "mp4" && s[4] == '.';
    assert s[..4] + Json == "clip.json";
    SubtitlesFileCases(s);
  }

  /** "talk.webm" becomes "talk.json". */
  lemma WebmExample()
    ensures SubtitlesFile("talk.webm") == "talk.json"
  {
    var s := "talk.webm";
    assert s[5..] == "webm" && s[4] == '.';
    assert s[..4] + Json == "talk.json";
    SubtitlesFileCases(s);
  }

  /** Because the dot is unescaped, "xmp4" (no dot at all) becomes ".json". */
  lemma UnescapedDotExample()
    ensures SubtitlesFile("xmp4") == ".json"
  {
    var s := "xmp4";
    assert s[1..] == "mp4" && s[0] == 'x';
    assert s[..0] + Json == ".json";
    SubtitlesFileCases(s);
  }
}
