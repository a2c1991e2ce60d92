/**
 * The blog's text utilities: cleaning the top of a post body, normalising
 * media references, slugs from file names, looking up a post by slug,
 * resolving the content directory, and the word count, reading time and
 * excerpt of a post.
 */
module BlogUtils {
  import opened Options
  import opened Text

  // ---------------------------------------------------------------------------
  // METADATA_LINE_RE = r'^[A-Za-z0-9_]+:\s*.+$'
  // ---------------------------------------------------------------------------

  /** `[A-Za-z0-9_]`. */
  predicate IsKeyChar(c: char)
  {
    IsAlnum(c) || c == '_'
  }

  /** The length of the leading run of key characters. */
  function KeyLength(s: string): (k: nat)
    ensures k <= |s|
    ensures forall i :: 0 <= i < k ==> IsKeyChar(s[i])
    ensures k < |s| ==> !IsKeyChar(s[k])
  {
    if s == [] || !IsKeyChar(s[0]) then 0 else 1 + KeyLength(s[1..])
  }

  /** `METADATA_LINE_RE.match(s)` on a string without a newline: a non-empty
      key of `[A-Za-z0-9_]`, a colon, and at least one more character. */
  predicate IsMetadataLine(s: string)
  {
    var k := KeyLength(s);
    0 < k && k + 1 < |s| && s[k] == ':'
  }

  /**
   * What the pattern matches, written out: `s` is a key, a colon, then
   * `\s*` (any whitespace, newlines included), then `.+` (one or more
   * characters other than a newline), then `$` (the end, or a single newline
   * right before it).
   */
  ghost predicate MatchesMetadataPattern(s: string)
  {
    exists key: string, spaces: string, rest: string, tail: string ::
      && s == key + ":" + spaces + rest + tail
      && key != [] && (forall i :: 0 <= i < |key| ==> IsKeyChar(key[i]))
      && IsBlank(spaces)
      && rest != [] && (forall i :: 0 <= i < |rest| ==> rest[i] != '\n')
      && (tail == [] || tail == "\n")
  }

  /** On strings without a newline, and so on every stripped line of a text,
      `IsMetadataLine` is exactly the pattern. */
  lemma MetadataLineMatchesPattern(s: string)
    requires forall i :: 0 <= i < |s| ==> s[i] != '\n'
    ensures IsMetadataLine(s) <==> MatchesMetadataPattern(s)
  {
    var k := KeyLength(s);
    if IsMetadataLine(s) {
      var key, rest := s[..k], s[k + 1..];
      assert s == key + ":" + [] + rest + [];
    }
    if MatchesMetadataPattern(s) {
      var key: string, spaces: string, rest: string, tail: string :|
        && s == key + ":" + spaces + rest + tail
        && key != [] && (forall i :: 0 <= i < |key| ==> IsKeyChar(key[i]))
        && IsBlank(spaces)
        && rest != [] && (forall i :: 0 <= i < |rest| ==> rest[i] != '\n')
        && (tail == [] || tail == "\n");
      assert forall i :: 0 <= i < |key| ==> s[i] == key[i];
      assert s[|key|] == ':';
      assert k == |key|;
    }
  }

  // ---------------------------------------------------------------------------
  // strip_leading_metadata_lines
  // ---------------------------------------------------------------------------

  /** A line the scan drops while it is still skipping: blank once stripped,
      or `key: value` once stripped. */
  predicate Skippable(line: string)
  {
    Strip(line) == [] || IsMetadataLine(Strip(line))
  }

  /** Every line before `k` satisfies `P`. */
  ghost predicate AllBefore(lines: seq<string>, k: nat, P: string -> bool)
  {
    forall i :: 0 <= i < k && i < |lines| ==> P(lines[i])
  }

  /** The index of the first line that does not satisfy `P`, or the number of
      lines when they all do. */
  function FirstNot(lines: seq<string>, P: string -> bool): (k: nat)
    ensures k <= |lines|
    ensures AllBefore(lines, k, P)
    ensures k < |lines| ==> !P(lines[k])
  {
    if lines == [] || !P(lines[0]) then 0
    else
      var k := FirstNot(lines[1..], P);
      AllBeforeCons(lines, k, P);
      1 + k
  }

  lemma AllBeforeCons(lines: seq<string>, k: nat, P: string -> bool)
    requires lines != [] && P(lines[0]) && AllBefore(lines[1..], k, P)
    ensures AllBefore(lines, k + 1, P)
  {
    assert forall i :: 1 <= i < |lines| ==> lines[i] == lines[1..][i - 1];
  }

  lemma AllBeforeExtend(lines: seq<string>, i: nat, P: string -> bool)
    requires i < |lines| && AllBefore(lines, i, P) && P(lines[i])
    ensures AllBefore(lines, i + 1, P)
  {
  }

  /** `FirstNot` is the one index before which every line satisfies `P` and
      at which a line does not (or the lines end). */
  lemma FirstNotIs(lines: seq<string>, k: nat, P: string -> bool)
    requires k <= |lines| && AllBefore(lines, k, P)
    requires k < |lines| ==> !P(lines[k])
    ensures FirstNot(lines, P) == k
  {
    var f := FirstNot(lines, P);
  }

  /** The index of the first line that is neither blank nor metadata. */
  function FirstKept(lines: seq<string>): nat
  {
    FirstNot(lines, Skippable)
  }

  /** The text a body is cleaned to: its lines from the first kept one on,
      joined by "\n", with leading whitespace stripped. */
  function CleanedBody(content: string): string
  {
    var lines := SplitLines(content);
    LStrip(Join(lines[FirstKept(lines)..], "\n"))
  }

  /** `strip_leading_metadata_lines`: split into lines, scan them, join what
      was kept with "\n" and strip leading whitespace. */
  method StripLeadingMetadataLines(content: string) returns (body: string)
    ensures body == CleanedBody(content)
  {
    var lines := SplitLines(content);
    var cleaned := DropLeading(lines, Skippable);
    body := LStrip(Join(cleaned, "\n"));
  }

  /** The loop of `strip_leading_metadata_lines`, with its two `continue`
      tests (blank once stripped, `key: value` once stripped) as `skip`: a
      `skipping` flag that turns false at the first line `skip` rejects and
      stays false, and the lines appended to `cleaned` from then on. */
  method DropLeading(lines: seq<string>, skip: string -> bool) returns (cleaned: seq<string>)
    ensures cleaned == lines[FirstNot(lines, skip)..]
  {
    ghost var first := 0;
    cleaned := [];
    var skipping := true;
    for i := 0 to |lines|
      invariant skipping ==> AllBefore(lines, i, skip) && cleaned == []
      invariant !skipping ==> first < i && AllBefore(lines, first, skip)
      invariant !skipping ==> !skip(lines[first]) && cleaned == lines[first..i]
    {
      var line := lines[i];
      if skipping && skip(line) {
        AllBeforeExtend(lines, i, skip);
        continue;
      }
      if skipping {
        first := i;
      }
      SliceExtend(lines, first, i);
      skipping := false;
      cleaned := cleaned + [line];
    }
    if skipping {
      FirstNotIs(lines, |lines|, skip);
    } else {
      FirstNotIs(lines, first, skip);
      assert lines[first..|lines|] == lines[first..];
    }
  }

  /** The lines from `k` on, joined: line `k`, then a newline and the rest. */
  lemma JoinFrom(lines: seq<string>, k: nat)
    requires k < |lines|
    ensures Join(lines[k..], "\n") == lines[k] + JoinTail(lines, k)
  {
    if k + 1 < |lines| {
      assert lines[k..][1..] == lines[k + 1..];
    } else {
      assert lines[k..] == [lines[k]];
    }
  }

  /** What follows line `k` when lines from `k` on are joined by "\n". */
  function JoinTail(lines: seq<string>, k: nat): string
    requires k < |lines|
  {
    if k + 1 < |lines| then "\n" + Join(lines[k + 1..], "\n") else ""
  }

  /** The cleaned body starts at the first kept line, with that line's leading
      whitespace stripped, and keeps it and every later line as they are (even
      later lines that look like metadata). */
  lemma CleanedBodyStartsAtFirstKept(content: string)
    ensures var lines := SplitLines(content); var k := FirstKept(lines);
      && (k == |lines| ==> CleanedBody(content) == [])
      && (k < |lines| ==> CleanedBody(content) == LStrip(lines[k]) + JoinTail(lines, k))
  {
    var lines := SplitLines(content);
    var k := FirstKept(lines);
    if k < |lines| {
      var line := lines[k];
      assert !Skippable(line);
      StripEmptyIff(line);
      JoinFrom(lines, k);
      LStripAppend(line, JoinTail(lines, k));
    }
  }

  /** Content whose first line is kept comes back unchanged, when it uses "\n"
      alone for line breaks, does not end with one, and does not start with
      whitespace. */
  lemma UnchangedWhenFirstLineKept(content: string)
    requires content != [] && !IsSpace(content[0])
    requires forall i :: 0 <= i < |content| ==> IsLineBreak(content[i]) ==> content[i] == '\n'
    requires content[|content| - 1] != '\n'
    requires !Skippable(SplitLines(content)[0])
    ensures CleanedBody(content) == content
  {
    var lines := SplitLines(content);
    assert FirstKept(lines) == 0;
    assert lines[0..] == lines;
    JoinSplitLines(content);
    LStripOfNonSpaceStart(content);
  }

  // ---------------------------------------------------------------------------
  // normalize_media_path
  // ---------------------------------------------------------------------------

  predicate IsExternalUrl(s: string)
  {
    StartsWith(s, "http://") || StartsWith(s, "https://")
  }

  /** The first `n` characters of `s` are '/', and the next one, if any, is not. */
  ghost predicate SlashRun(s: string, n: nat)
  {
    n <= |s| && (forall i :: 0 <= i < n ==> s[i] == '/') && (n < |s| ==> s[n] != '/')
  }

  /** One `static/` prefix removed from `u`; None when nothing remains. What
      remains is a suffix of `u`. */
  function DropStatic(u: string): (local: Option<string>)
    ensures local.Some? ==> local.value != [] && |local.value| <= |u|
    ensures local.Some? ==> local.value == u[|u| - |local.value|..]
    ensures local == None <==> u == [] || u == "static/"
    ensures StartsWith(u, "static/") && |u| > 7 ==> local == Some(u[7..])
    ensures !StartsWith(u, "static/") && u != [] ==> local == Some(u)
  {
    var rest := if StartsWith(u, "static/") then u[7..] else u;
    if rest == "" then None else Some(rest)
  }

  /** The local branch of `normalize_media_path` on a stripped value: its
      leading slashes removed, then at most one `static/` prefix; None when
      nothing remains. What remains is a suffix of `s`. */
  function LocalReference(s: string): (local: Option<string>)
    ensures local.Some? ==> local.value != [] && |local.value| <= |s|
    ensures local.Some? ==> local.value[|local.value| - 1] == s[|s| - 1]
  {
    var unrooted := LStripChar(s, '/');
    var local := DropStatic(unrooted);
    if local.Some? then
      SuffixOfSuffix(s, unrooted, local.value);
      local
    else local
  }

  /** The leading slashes the local branch removes are exactly the run of
      slashes `s` starts with. */
  lemma LocalReferenceShape(s: string)
    ensures exists n: nat :: SlashRun(s, n) && LocalReference(s) == DropStatic(s[n..])
  {
    var unrooted := LStripChar(s, '/');
    var n: nat := |s| - |unrooted|;
    assert SlashRun(s, n) && unrooted == s[n..];
  }

  /** `normalize_media_path`: (path, is_external). */
  function NormalizeMediaPath(value: Option<string>): (r: (Option<string>, bool))
    ensures value.None? || IsBlank(value.value) ==> r == (None, false)
    ensures r.1 <==> value.Some? && IsExternalUrl(Strip(value.value))
    ensures r.1 ==> r.0 == Some(Strip(value.value))
    ensures value.Some? && !IsBlank(value.value) && !r.1 ==> r.0 == LocalReference(Strip(value.value))
    ensures r.0.Some? ==> r.0.value != [] && !IsSpace(r.0.value[|r.0.value| - 1])
  {
    if value.None? || value.value == "" then (None, false)
    else
      var normalized := Strip(value.value);
      StripEmptyIff(value.value);
      if normalized == "" then (None, false)
      else if IsExternalUrl(normalized) then (Some(normalized), true)
      else (LocalReference(normalized), false)
  }

  /** A value that is already stripped, not blank and not a URL takes the
      local branch. */
  lemma NormalizeStrippedLocal(v: string)
    requires v != [] && !IsSpace(v[0]) && !IsSpace(v[|v| - 1]) && !IsExternalUrl(v)
    ensures NormalizeMediaPath(Some(v)) == (LocalReference(v), false)
  {
    StripOfTrimmed(v);
  }

  lemma LStripCharOfOtherStart(s: string, ch: char)
    requires s != [] && s[0] != ch
    ensures LStripChar(s, ch) == s
  {
  }

  /** A local path, put back under `/static/`, normalises to itself. */
  lemma StaticRootRoundTrip(p: string)
    requires p != [] && !IsSpace(p[|p| - 1])
    ensures NormalizeMediaPath(Some("/static/" + p)) == (Some(p), false)
  {
    var v := "/static/" + p;
    var u := "static/" + p;
    assert v == ['/'] + u;
    assert v[|v| - 1] == p[|p| - 1];
    assert !IsExternalUrl(v) by {
      assert v[0] != 'h';
    }
    NormalizeStrippedLocal(v);
    assert v[1..] == u;
    LStripCharOfOtherStart(u, '/');
    assert LStripChar(v, '/') == u;
    assert u[..7] == "static/" && u[7..] == p;
  }

  /** An external URL, once normalised, normalises to itself. */
  lemma ExternalUrlIdempotent(value: string)
    requires NormalizeMediaPath(Some(value)).1
    ensures var r := NormalizeMediaPath(Some(value)).0.value;
      NormalizeMediaPath(Some(r)) == (Some(r), true)
  {
    var r := Strip(value);
    assert r[0] == 'h';
    StripOfTrimmed(r);
  }

  // ---------------------------------------------------------------------------
  // slug_from_filename
  // ---------------------------------------------------------------------------

  /** The index of the last '.' in `s`, or -1 (`str.rfind('.')`). */
  function LastDot(s: string): (i: int)
    ensures -1 <= i < |s|
    ensures i >= 0 ==> s[i] == '.'
    ensures forall j :: i < j < |s| ==> s[j] != '.'
  {
    if s == [] then -1
    else if s[|s| - 1] == '.' then |s| - 1
    else LastDot(s[..|s| - 1])
  }

  /** `PurePath.stem` of a file name: the name without its last suffix, where a
      suffix is a dot that neither starts nor ends the name, and what follows it. */
  function Stem(name: string): (stem: string)
    ensures StartsWith(name, stem)
    ensures stem != name ==> name[|stem|] == '.' && 0 < |stem| < |name| - 1
    ensures stem != name ==> forall j :: |stem| < j < |name| ==> name[j] != '.'
    ensures stem == name <==> !(0 < LastDot(name) < |name| - 1)
  {
    var i := LastDot(name);
    if 0 < i < |name| - 1 then name[..i] else name
  }

  function SlugCharOfFileChar(c: char): char
  {
    var l := LowerChar(c);
    if l == ' ' || l == '_' then '-' else l
  }

  /** `slug_from_filename`: `path.stem.lower().replace(' ', '-').replace('_', '-')`
      on the path's file name. */
  function SlugFromFilename(name: string): (slug: string)
    ensures |slug| == |Stem(name)|
    ensures forall i :: 0 <= i < |slug| ==> !IsUpper(slug[i]) && slug[i] != ' ' && slug[i] != '_'
    ensures forall i :: 0 <= i < |slug| ==>
      var c := Stem(name)[i];
      if IsUpper(c) then slug[i] == LowerChar(c)
      else if c == ' ' || c == '_' then slug[i] == '-'
      else slug[i] == c
  {
    var stem := Stem(name);
    seq(|stem|, i requires 0 <= i < |stem| => SlugCharOfFileChar(stem[i]))
  }

  /** The stem of `<base>.md` is `base`. */
  lemma StemOfMarkdownFile(base: string)
    requires base != []
    ensures Stem(base + ".md") == base
  {
    var name := base + ".md";
    assert name[|base|] == '.' && name[|base| + 1] == 'm' && name[|base| + 2] == 'd';
    assert LastDot(name) == |base| by {
      assert name[..|name| - 1][..|name| - 2] == name[..|name| - 2];
    }
    assert name[..|base|] == base;
  }

  /** A file-name slug written back as `<slug>.md` gives the same slug. */
  lemma SlugFromFilenameRoundTrip(name: string)
    requires SlugFromFilename(name) != []
    ensures var slug := SlugFromFilename(name); SlugFromFilename(slug + ".md") == slug
  {
    var slug := SlugFromFilename(name);
    StemOfMarkdownFile(slug);
  }

  // ---------------------------------------------------------------------------
  // find_post
  // ---------------------------------------------------------------------------

  /** A loaded post: the fields of `parse_post` that this model keeps. */
  datatype Post = Post(slug: Option<string>, title: string, wordCount: nat,
                       readingTime: nat, excerpt: string)

  /** `find_post` on an explicit list of posts: the first whose slug matches. */
  method FindPost(slug: string, posts: seq<Post>) returns (found: Option<Post>)
    ensures found.None? <==> forall i :: 0 <= i < |posts| ==> posts[i].slug != Some(slug)
    ensures found.Some? ==> exists i :: 0 <= i < |posts| && posts[i] == found.value
                                      && posts[i].slug == Some(slug)
                                      && forall j :: 0 <= j < i ==> posts[j].slug != Some(slug)
  {
    for i := 0 to |posts|
      invariant forall j :: 0 <= j < i ==> posts[j].slug != Some(slug)
    {
      if posts[i].slug == Some(slug) {
        return Some(posts[i]);
      }
    }
    return None;
  }

  // ---------------------------------------------------------------------------
  // get_content_dir
  // ---------------------------------------------------------------------------

  /** The directory `get_content_dir` resolves to: `Path(raw).expanduser()`, or
      the shipped default `content/posts`. */
  datatype ContentDir = Configured(raw: string) | DefaultDir
  {
    /** The path text the directory stands for, before `expanduser`. */
    function PathText(): string
    {
      if Configured? then raw else DefaultContentDir
    }
  }

  const DefaultContentDir: string := "content/posts"

  /** The `override` argument: absent, a string, or a `Path` (always truthy). */
  datatype Override = NoOverride | TextOverride(text: string) | PathOverride(path: string)

  predicate Truthy(o: Override)
  {
    o.PathOverride? || (o.TextOverride? && o.text != "")
  }

  function OverrideRaw(o: Override): string
    requires Truthy(o)
  {
    if o.PathOverride? then o.path else o.text
  }

  const ContentDirVariables: seq<string> := ["BLOG_CONTENT_DIR", "AUTHORING_CONTENT_DIR", "CONTENT_DIR"]

  /** `os.getenv(name)` is a non-empty string. */
  predicate IsSet(env: map<string, string>, name: string)
  {
    name in env && env[name] != ""
  }

  /** The value of the first of `names` that is set to a non-empty string. */
  function FirstSet(env: map<string, string>, names: seq<string>): (r: Option<string>)
    ensures r.None? <==> forall i :: 0 <= i < |names| ==> !IsSet(env, names[i])
    ensures r.Some? ==> exists i :: 0 <= i < |names| && IsSet(env, names[i])
                                 && r.value == env[names[i]]
                                 && forall j :: 0 <= j < i ==> !IsSet(env, names[j])
  {
    if names == [] then None
    else if IsSet(env, names[0]) then Some(env[names[0]])
    else
      var r := FirstSet(env, names[1..]);
      assert forall i :: 1 <= i < |names| ==> names[i] == names[1..][i - 1];
      r
  }

  /** `_env_content_dir`. */
  method EnvContentDir(env: map<string, string>) returns (value: Option<string>)
    ensures value == FirstSet(env, ContentDirVariables)
  {
    var names := ContentDirVariables;
    for i := 0 to |names|
      invariant FirstSet(env, names) == FirstSet(env, names[i..])
    {
      if IsSet(env, names[i]) {
        return Some(env[names[i]]);
      }
      assert names[i..][1..] == names[i + 1..];
    }
    return None;
  }

  /** `get_content_dir`: the override, else BLOG_CONTENT_DIR, else
      AUTHORING_CONTENT_DIR, else CONTENT_DIR, else `content/posts`; an empty
      value is passed over. */
  method GetContentDir(override: Override, env: map<string, string>) returns (dir: ContentDir)
    ensures Truthy(override) ==> dir == Configured(OverrideRaw(override))
    ensures !Truthy(override) && IsSet(env, "BLOG_CONTENT_DIR") ==>
      dir == Configured(env["BLOG_CONTENT_DIR"])
    ensures !Truthy(override) && !IsSet(env, "BLOG_CONTENT_DIR") && IsSet(env, "AUTHORING_CONTENT_DIR") ==>
      dir == Configured(env["AUTHORING_CONTENT_DIR"])
    ensures (!Truthy(override) && !IsSet(env, "BLOG_CONTENT_DIR")
             && !IsSet(env, "AUTHORING_CONTENT_DIR") && IsSet(env, "CONTENT_DIR"))
            ==> dir == Configured(env["CONTENT_DIR"])
    ensures (!Truthy(override) && !IsSet(env, "BLOG_CONTENT_DIR")
             && !IsSet(env, "AUTHORING_CONTENT_DIR") && !IsSet(env, "CONTENT_DIR"))
            ==> dir == DefaultDir && dir.PathText() == DefaultContentDir
  {
    if Truthy(override) {
      return Configured(OverrideRaw(override));
    }
    var envValue := EnvContentDir(env);
    assert ContentDirVariables[0] == "BLOG_CONTENT_DIR";
    assert ContentDirVariables[1] == "AUTHORING_CONTENT_DIR";
    assert ContentDirVariables[2] == "CONTENT_DIR";
    if envValue.Some? && envValue.value != "" {
      return Configured(envValue.value);
    }
    return DefaultDir;
  }

  // ---------------------------------------------------------------------------
  // Word count, reading time and excerpt of parse_post
  // ---------------------------------------------------------------------------

  /** Python's `round(n / 200)`: to the nearest integer, halves to the even one. */
  function RoundPer200(n: nat): (r: nat)
    ensures 200 * r - 100 <= n <= 200 * r + 100
    ensures (n == 200 * r - 100 || n == 200 * r + 100) ==> r % 2 == 0
  {
    var q, rem := n / 200, n % 200;
    if rem < 100 then q
    else if rem > 100 then q + 1
    else if q % 2 == 0 then q
    else q + 1
  }

  /** `max(1, round(word_count / 200))`: minutes at 200 words a minute. */
  function ReadingTime(wordCount: nat): (minutes: nat)
    ensures minutes >= 1
    ensures wordCount > 100 ==> 200 * minutes - 100 <= wordCount <= 200 * minutes + 100
    ensures wordCount <= 100 ==> minutes == 1
    ensures wordCount > 100 ==> minutes == RoundPer200(wordCount)
  {
    var r := RoundPer200(wordCount);
    if r < 1 then 1 else r
  }

  /** More words never take less time to read. */
  lemma ReadingTimeMonotone(m: nat, n: nat)
    requires m <= n
    ensures ReadingTime(m) <= ReadingTime(n)
  {
    var a, b := RoundPer200(m), RoundPer200(n);
    // 200a - 100 <= m <= n <= 200b + 100, so a > b only if m == n sits on a half,
    // where the two roundings would have to be consecutive and both even
    assert a <= b + 1;
    assert a == b + 1 ==> m == n;
  }

  const ExcerptWords: nat := 50

  const Ellipsis: string := "\U{2026}"

  /** The excerpt: the `excerpt` metadata when it is a non-empty string, else
      the first 50 words joined by spaces, with an ellipsis only when the
      metadata has no excerpt at all and there are more than 50 words. */
  function Excerpt(words: seq<string>, excerptMeta: Option<string>): string
  {
    if excerptMeta.Some? && excerptMeta.value != "" then excerptMeta.value
    else
      var head := Join(words[..if |words| < ExcerptWords then |words| else ExcerptWords], " ");
      if excerptMeta.None? && |words| > ExcerptWords then head + Ellipsis else head
  }

  datatype PostStats = PostStats(wordCount: nat, readingTime: nat, excerpt: string)

  /** The word count, reading time and excerpt `parse_post` derives from a
      cleaned body and its `excerpt` metadata (None when absent or null). */
  function Stats(body: string, excerptMeta: Option<string>): (st: PostStats)
    ensures st.wordCount == |SplitWords(body)|
    ensures st.readingTime >= 1
    ensures excerptMeta.Some? && excerptMeta.value != "" ==> st.excerpt == excerptMeta.value
    ensures st.readingTime == ReadingTime(st.wordCount)
    ensures st.excerpt == Excerpt(SplitWords(body), excerptMeta)
  {
    var words := SplitWords(body);
    PostStats(|words|, ReadingTime(|words|), Excerpt(words, excerptMeta))
  }

  /** Without excerpt metadata, more than 50 words give as excerpt the first
      50 words, which split back into exactly those words, followed by an
      ellipsis. */
  lemma ExcerptOfLongText(words: seq<string>)
    requires AllWords(words) && |words| > ExcerptWords
    ensures exists head :: Excerpt(words, None) == head + Ellipsis
                        && SplitWords(head) == words[..ExcerptWords]
  {
    var head := Join(words[..ExcerptWords], " ");
    assert SplitWords(head) == words[..ExcerptWords] by {
      AllWordsPrefix(words, ExcerptWords);
      SplitJoinWords(words[..ExcerptWords]);
    }
    assert Excerpt(words, None) == head + Ellipsis;
  }

  /** Without excerpt metadata, at most 50 words give as excerpt text that
      splits back into all of them, with no ellipsis. */
  lemma ExcerptOfShortText(words: seq<string>)
    requires AllWords(words) && |words| <= ExcerptWords
    ensures SplitWords(Excerpt(words, None)) == words
  {
    assert words[..|words|] == words;
    SplitJoinWords(words);
  }

  lemma AllWordsPrefix(ws: seq<string>, n: nat)
    requires n <= |ws| && AllWords(ws)
    ensures AllWords(ws[..n])
  {
    assert forall i :: 0 <= i < n ==> ws[..n][i] == ws[i];
  }

  /** An empty `excerpt` metadata string falls back to the first 50 words like
      a missing one, but never gets the ellipsis. */
  lemma EmptyExcerptMetadataHasNoEllipsis(words: seq<string>)
    ensures Excerpt(words, None) ==
            Excerpt(words, Some("")) + (if |words| > ExcerptWords then Ellipsis else "")
  {
  }
}
