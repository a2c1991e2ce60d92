/**
 * The authoring tool's handling of posts: `slugify`, the fields and the
 * validation rules of the edit form, the rename rule of `save_post` on the
 * content directory.
 */
module Authoring {
  import opened Options
  import opened Text

  // ---------------------------------------------------------------------------
  // slugify
  // ---------------------------------------------------------------------------

  /** The characters a slug is made of: `[a-z0-9-]`. */
  predicate IsSlugChar(c: char)
  {
    IsLowerAlnum(c) || c == '-'
  }

  /** A string made of slug characters only. */
  predicate IsSlug(s: string)
  {
    forall i :: 0 <= i < |s| ==> IsSlugChar(s[i])
  }

  /** A character that survives `slugify` as part of a word: alphanumeric
      (in either case) or '-'. */
  predicate IsSlugSource(c: char)
  {
    IsAlnum(c) || c == '-'
  }

  /** One step of the comprehension in `slugify`: a character is kept when it
      is alphanumeric, '-' or ' ', and becomes a space otherwise. */
  function CleanChar(c: char): char
  {
    if IsAlnum(c) || c == '-' || c == ' ' then c else ' '
  }

  /** The comprehension in `slugify`: every character stays in place; an
      alphanumeric, '-' or ' ' is kept, and any other becomes ' '. */
  function Clean(s: string): (r: string)
    ensures |r| == |s|
    ensures forall i :: 0 <= i < |s| ==> IsSlugSource(r[i]) || r[i] == ' '
    ensures forall i :: 0 <= i < |s| ==> (IsSlugSource(s[i]) || s[i] == ' ' ==> r[i] == s[i])
    ensures forall i :: 0 <= i < |s| ==> (!IsSlugSource(s[i]) ==> r[i] == ' ')
  {
    seq(|s|, i requires 0 <= i < |s| => CleanChar(s[i]))
  }

  /** Cleaning changes a text exactly when it holds a character other than an
      alphanumeric, '-' or ' ', and cleaning twice is cleaning once. */
  lemma CleanFixedPoint(s: string)
    ensures Clean(s) == s <==> forall i :: 0 <= i < |s| ==> IsSlugSource(s[i]) || s[i] == ' '
    ensures Clean(Clean(s)) == Clean(s)
  {
    if Clean(s) == s {
      forall i | 0 <= i < |s| ensures IsSlugSource(s[i]) || s[i] == ' ' {
        assert s[i] == Clean(s)[i];
      }
    }
  }

  /** The text `slugify` splits into words. */
  function SlugText(value: string): string
  {
    Clean(Lower(Strip(value)))
  }

  lemma SlugTextChars(value: string)
    ensures SpaceOr(SlugText(value), IsSlugChar)
  {
  }

  /** The words of the cleaned text, joined by '-', are made of slug
      characters. */
  lemma JoinedSlugChars(value: string)
    ensures IsSlug(Join(SplitWords(SlugText(value)), "-"))
  {
    SlugTextChars(value);
    SplitWordsKeep(SlugText(value), IsSlugChar);
    JoinChars(SplitWords(SlugText(value)), "-", IsSlugChar);
  }

  /** `slugify`: strip, lower-case, turn every character other than an
      alphanumeric, '-' or ' ' into a space, and join the words with '-'. */
  function Slugify(value: string): (slug: string)
    ensures IsSlug(slug)
  {
    JoinedSlugChars(value);
    Join(SplitWords(SlugText(value)), "-")
  }

  /** A slug passes through stripping, lower-casing and cleaning unchanged. */
  lemma SlugTextOfSlug(s: string)
    requires IsSlug(s)
    ensures NoSpace(s) && SlugText(s) == s
  {
    assert NoSpace(s);
    StripOfNoSpace(s);
    LowerOfSlug(s);
    CleanOfSlug(s);
  }

  lemma LowerOfSlug(s: string)
    requires IsSlug(s)
    ensures Lower(s) == s
  {
    assert forall i :: 0 <= i < |s| ==> LowerChar(s[i]) == s[i];
  }

  lemma CleanOfSlug(s: string)
    requires IsSlug(s)
    ensures Clean(s) == s
  {
    assert forall i :: 0 <= i < |s| ==> IsSlugSource(s[i]);
    CleanFixedPoint(s);
  }

  /** A slug is its own `slugify`. */
  lemma SlugifyOfSlug(s: string)
    requires IsSlug(s)
    ensures Slugify(s) == s
  {
    SlugTextOfSlug(s);
    SplitWordsOfNoSpace(s);
  }

  /** `slugify` is idempotent, so slugifying the form's slug a second time
      changes nothing. */
  lemma SlugifyIdempotent(value: string)
    ensures Slugify(Slugify(value)) == Slugify(value)
  {
    SlugifyOfSlug(Slugify(value));
  }

  /** Slug characters and spaces. */
  predicate IsSlugOrSpace(c: char)
  {
    IsSlugChar(c) || c == ' '
  }

  lemma SlugWordsChars(ws: seq<string>)
    requires forall i :: 0 <= i < |ws| ==> IsSlug(ws[i])
    ensures forall j :: 0 <= j < |Join(ws, " ")| ==> IsSlugOrSpace(Join(ws, " ")[j])
  {
    assert AllChars(ws, IsSlugOrSpace);
    JoinChars(ws, " ", IsSlugOrSpace);
  }

  lemma CleanLowerOfSlugText(s: string)
    requires forall j :: 0 <= j < |s| ==> IsSlugOrSpace(s[j])
    ensures Clean(Lower(s)) == s
  {
    assert Lower(s) == s;
    assert Clean(s) == s;
  }

  /** Words joined by a space neither start nor end with whitespace. */
  lemma StripOfJoinedWords(ws: seq<string>)
    requires AllWords(ws)
    ensures Strip(Join(ws, " ")) == Join(ws, " ")
  {
    if ws != [] {
      assert ws[0] != [] && ws[|ws| - 1] != [];
      JoinNonEmptyStartsWithFirst(ws, " ");
      JoinEndsWithLast(ws, " ");
      StripOfTrimmed(Join(ws, " "));
    }
  }

  /** Slug words separated by single spaces slugify to the same words
      separated by '-'. */
  lemma SlugifyOfWords(ws: seq<string>)
    requires AllWords(ws)
    requires forall i :: 0 <= i < |ws| ==> IsSlug(ws[i])
    ensures Slugify(Join(ws, " ")) == Join(ws, "-")
  {
    StripOfJoinedWords(ws);
    SlugWordsChars(ws);
    CleanLowerOfSlugText(Join(ws, " "));
    SplitJoinWords(ws);
  }

  lemma CleanCharIsSpace(c: char)
    ensures IsSpace(CleanChar(c)) <==> !IsSlugSource(c)
  {
  }

  lemma LowerKeepsSomeSource(s: string)
    ensures SomeChar(Lower(s), IsSlugSource) <==> SomeChar(s, IsSlugSource)
  {
    if SomeChar(s, IsSlugSource) {
      var i :| 0 <= i < |s| && IsSlugSource(s[i]);
      assert IsSlugSource(Lower(s)[i]);
    }
    if SomeChar(Lower(s), IsSlugSource) {
      var i :| 0 <= i < |s| && IsSlugSource(Lower(s)[i]);
      assert IsSlugSource(s[i]);
    }
  }

  lemma CleanBlankIff(s: string)
    ensures IsBlank(Clean(s)) <==> !SomeChar(s, IsSlugSource)
  {
    if !IsBlank(Clean(s)) {
      var i :| 0 <= i < |s| && !IsSpace(Clean(s)[i]);
      CleanCharIsSpace(s[i]);
    }
    if SomeChar(s, IsSlugSource) {
      var i :| 0 <= i < |s| && IsSlugSource(s[i]);
      CleanCharIsSpace(s[i]);
    }
  }

  /** `slugify` gives the empty string exactly when the value has no
      alphanumeric character and no '-'. */
  lemma SlugifyEmptyIff(value: string)
    ensures Slugify(value) == "" <==> !SomeChar(value, IsSlugSource)
  {
    var t := SlugText(value);
    var ws := SplitWords(t);
    SplitWordsEmptyIff(t);
    if ws != [] {
      JoinNonEmptyStartsWithFirst(ws, "-");
    }
    assert Slugify(value) == "" <==> IsBlank(t);
    CleanBlankIff(Lower(Strip(value)));
    LowerKeepsSomeSource(Strip(value));
    StripKeepsSomeChar(value, IsSlugSource);
    assert IsBlank(t) <==> !SomeChar(value, IsSlugSource);
  }

  // ---------------------------------------------------------------------------
  // The edit form (`edit_post`, POST)
  // ---------------------------------------------------------------------------

  /** The submitted form: field name to value. A missing field reads as "",
      which the handler treats exactly like an absent one. */
  type Form = map<string, string>

  function FormGet(form: Form, key: string): string
  {
    if key in form then form[key] else ""
  }

  /** The hero image field: stripped, and emptied when it reads `none` or
      `null` in any case. */
  function HeroImage(raw: string): (h: string)
    ensures h == "" <==> IsBlank(raw) || Lower(Strip(raw)) in {"none", "null"}
    ensures h != "" ==> h == Strip(raw) && !IsSpace(h[0]) && !IsSpace(h[|h| - 1])
  {
    StripEmptyIff(raw);
    var v := Strip(raw);
    if Lower(v) in {"none", "null"} then "" else v
  }

  /** The slug field: the form's slug, or the slugified title when the form
      gives none, slugified. Slugifying twice is harmless, so the result is
      the slug of whichever value was chosen. */
  function SlugField(rawSlug: string, title: string): (slug: string)
    ensures IsSlug(slug)
    ensures rawSlug != "" ==> slug == Slugify(rawSlug)
    ensures rawSlug == "" ==> slug == Slugify(title)
  {
    SlugifyIdempotent(title);
    Slugify(if rawSlug != "" then rawSlug else Slugify(title))
  }

  /** The date field: the stripped value, or `today` when it is blank. */
  function DateField(raw: string, today: string): (date: string)
    ensures IsBlank(raw) ==> date == today
    ensures !IsBlank(raw) ==> date != "" && date == Strip(raw)
  {
    StripEmptyIff(raw);
    var v := Strip(raw);
    if v != "" then v else today
  }

  /** The fields `edit_post` reads from a submitted form. */
  datatype Fields = Fields(
    title: string,
    slug: string,
    description: string,
    excerpt: string,
    heroImage: string,
    content: string,
    featured: bool,
    date: string)

  /** The field handling of `edit_post`: every text field is stripped except
      the slug; `featured` is set by the checkbox value `on`. */
  function ParseForm(form: Form, today: string): Fields
  {
    var title := Strip(FormGet(form, "title"));
    Fields(
      title,
      SlugField(FormGet(form, "slug"), title),
      Strip(FormGet(form, "description")),
      Strip(FormGet(form, "excerpt")),
      HeroImage(FormGet(form, "hero_image")),
      Strip(FormGet(form, "content")),
      FormGet(form, "featured") == "on",
      DateField(FormGet(form, "date"), today))
  }

  // ---------------------------------------------------------------------------
  // Validation (`edit_post`, the `errors` list)
  // ---------------------------------------------------------------------------

  datatype ValidationError =
    | TitleRequired
    | SlugRequired
    | ContentRequired
    | DuplicateSlug(slug: string)

  /** The message flashed for each error. */
  function Message(e: ValidationError): string
  {
    match e
    case TitleRequired => "Title is required."
    case SlugRequired => "Slug is required."
    case ContentRequired => "Content is required."
    case DuplicateSlug(slug) => "A post with slug \"" + slug + "\" already exists."
  }

  /** The messages flashed for a list of errors, in order. */
  function Messages(errs: seq<ValidationError>): (ms: seq<string>)
    ensures |ms| == |errs|
    ensures forall i :: 0 <= i < |errs| ==> ms[i] == Message(errs[i])
  {
    seq(|errs|, i requires 0 <= i < |errs| => Message(errs[i]))
  }

  /** Each fixed message is flashed only for its own error: the duplicate
      message starts with 'A', the others with their field's initial. */
  lemma MessageOfFixed(e: ValidationError)
    ensures Message(e) == "Title is required." <==> e == TitleRequired
    ensures Message(e) == "Slug is required." <==> e == SlugRequired
    ensures Message(e) == "Content is required." <==> e == ContentRequired
  {
    if e.DuplicateSlug? {
      assert Message(e)[0] == 'A';
    }
  }

  /** The order in which the checks run. */
  function Rank(e: ValidationError): nat
  {
    match e
    case TitleRequired => 0
    case SlugRequired => 1
    case ContentRequired => 2
    case DuplicateSlug(_) => 3
  }

  /** The slug recorded as the post's previous one: the form's
      `original_slug` when it is not empty, otherwise the slug of the edit
      route (`None` on the new-post route). */
  function OriginalSlug(form: Form, routeSlug: Option<string>): Option<string>
  {
    if FormGet(form, "original_slug") != "" then Some(FormGet(form, "original_slug"))
    else routeSlug
  }

  /** `original_slug` is truthy and differs from `slug`. */
  predicate Renamed(original: Option<string>, slug: string)
  {
    original.Some? && original.value != "" && original.value != slug
  }

  /** The duplicate-slug rule: the post is new, or is renamed, and a file for
      the slug already exists. */
  predicate IsDuplicate(slug: string, isExisting: bool, original: Option<string>, files: set<string>)
  {
    (!isExisting || Renamed(original, slug)) && slug in files
  }

  /** Every element of `errs` ranks strictly below every later one. */
  ghost predicate InCheckOrder(errs: seq<ValidationError>)
  {
    forall i, j :: 0 <= i < j < |errs| ==> Rank(errs[i]) < Rank(errs[j])
  }

  /** `[e]` when `failed`, else nothing. */
  function Check(failed: bool, e: ValidationError): seq<ValidationError>
  {
    if failed then [e] else []
  }

  /** The errors `edit_post` collects for a submission, in order. */
  function ValidationErrors(f: Fields, isExisting: bool, original: Option<string>, files: set<string>)
    : seq<ValidationError>
  {
    Check(f.title == "", TitleRequired)
    + Check(f.slug == "", SlugRequired)
    + Check(f.content == "", ContentRequired)
    + Check(IsDuplicate(f.slug, isExisting, original, files), DuplicateSlug(f.slug))
  }

  /** Each error is reported exactly when its condition holds, and a
      duplicate names the submitted slug. */
  lemma ValidationErrorsReported(f: Fields, isExisting: bool, original: Option<string>, files: set<string>)
    ensures var errs := ValidationErrors(f, isExisting, original, files);
      && (TitleRequired in errs <==> f.title == "")
      && (SlugRequired in errs <==> f.slug == "")
      && (ContentRequired in errs <==> f.content == "")
      && (DuplicateSlug(f.slug) in errs <==> IsDuplicate(f.slug, isExisting, original, files))
      && (forall e :: e in errs && e.DuplicateSlug? ==> e.slug == f.slug)
  {
    var errs := ValidationErrors(f, isExisting, original, files);
    var a := Check(f.title == "", TitleRequired);
    var b := Check(f.slug == "", SlugRequired);
    var c := Check(f.content == "", ContentRequired);
    var d := Check(IsDuplicate(f.slug, isExisting, original, files), DuplicateSlug(f.slug));
    assert errs == a + b + c + d;
    assert forall e :: e in errs <==> e in a || e in b || e in c || e in d;
  }

  /** When every duplicate error in `errs` names `slug`, an error naming
      `slug` or a fixed error has its message flashed exactly when the error
      is in `errs`. */
  lemma MessageFlashedIff(errs: seq<ValidationError>, e: ValidationError, slug: string)
    requires forall x :: x in errs && x.DuplicateSlug? ==> x.slug == slug
    requires e.DuplicateSlug? ==> e.slug == slug
    ensures Message(e) in Messages(errs) <==> e in errs
  {
    var ms := Messages(errs);
    if Message(e) in ms {
      var i :| 0 <= i < |ms| && ms[i] == Message(e);
      MessageOfFixed(e);
      MessageOfFixed(errs[i]);
      assert errs[i] in errs;
    }
    if e in errs {
      var i :| 0 <= i < |errs| && errs[i] == e;
      assert ms[i] == Message(e);
    }
  }

  /** The messages flashed for a rejected submission: each required-field
      message exactly when that field is empty, and the duplicate message for
      the submitted slug exactly when the duplicate check fails. */
  lemma FlashedMessages(f: Fields, isExisting: bool, original: Option<string>, files: set<string>)
    ensures var ms := Messages(ValidationErrors(f, isExisting, original, files));
      && ("Title is required." in ms <==> f.title == "")
      && ("Slug is required." in ms <==> f.slug == "")
      && ("Content is required." in ms <==> f.content == "")
      && (Message(DuplicateSlug(f.slug)) in ms <==> IsDuplicate(f.slug, isExisting, original, files))
  {
    var errs := ValidationErrors(f, isExisting, original, files);
    ValidationErrorsReported(f, isExisting, original, files);
    MessageFlashedIff(errs, TitleRequired, f.slug);
    MessageFlashedIff(errs, SlugRequired, f.slug);
    MessageFlashedIff(errs, ContentRequired, f.slug);
    MessageFlashedIff(errs, DuplicateSlug(f.slug), f.slug);
  }

  /** Every error ranks below `r`. */
  ghost predicate RanksBelow(errs: seq<ValidationError>, r: nat)
  {
    forall i :: 0 <= i < |errs| ==> Rank(errs[i]) < r
  }

  lemma AppendCheck(errs: seq<ValidationError>, failed: bool, e: ValidationError)
    requires InCheckOrder(errs) && RanksBelow(errs, Rank(e))
    ensures InCheckOrder(errs + Check(failed, e))
    ensures RanksBelow(errs + Check(failed, e), Rank(e) + 1)
  {
  }

  lemma ChecksInOrder(title: bool, slug: bool, content: bool, duplicate: bool, s: string)
    ensures InCheckOrder(Check(title, TitleRequired) + Check(slug, SlugRequired)
      + Check(content, ContentRequired) + Check(duplicate, DuplicateSlug(s)))
  {
    var a := Check(title, TitleRequired);
    assert InCheckOrder(a) && RanksBelow(a, 1);
    AppendCheck(a, slug, SlugRequired);
    var ab := a + Check(slug, SlugRequired);
    AppendCheck(ab, content, ContentRequired);
    var abc := ab + Check(content, ContentRequired);
    AppendCheck(abc, duplicate, DuplicateSlug(s));
  }

  /** The errors come in the order of the checks. */
  lemma ValidationErrorsInOrder(f: Fields, isExisting: bool, original: Option<string>, files: set<string>)
    ensures InCheckOrder(ValidationErrors(f, isExisting, original, files))
  {
    ChecksInOrder(f.title == "", f.slug == "", f.content == "",
      IsDuplicate(f.slug, isExisting, original, files), f.slug);
  }

  /** The checks of `edit_post`, appending to the error list one by one. */
  method Validate(f: Fields, isExisting: bool, original: Option<string>, files: set<string>)
    returns (errors: seq<ValidationError>)
    ensures errors == ValidationErrors(f, isExisting, original, files)
  {
    errors := [];
    if f.title == "" {
      errors := errors + [TitleRequired];
    }
    assert errors == Check(f.title == "", TitleRequired);
    if f.slug == "" {
      errors := errors + [SlugRequired];
    }
    assert errors == Check(f.title == "", TitleRequired) + Check(f.slug == "", SlugRequired);
    if f.content == "" {
      errors := errors + [ContentRequired];
    }
    ghost var checked := errors;
    if (!isExisting || Renamed(original, f.slug)) && f.slug in files {
      errors := errors + [DuplicateSlug(f.slug)];
    }
    assert errors == checked + Check(IsDuplicate(f.slug, isExisting, original, files), DuplicateSlug(f.slug));
  }

  // ---------------------------------------------------------------------------
  // Saving (`save_post`) and the submission as a whole
  // ---------------------------------------------------------------------------

  /** The front matter `edit_post` writes. */
  datatype Metadata = Metadata(
    title: string,
    slug: string,
    date: string,
    description: string,
    excerpt: string,
    heroImage: Option<string>,
    featured: bool)

  /** A post file `<slug>.md`: front matter and Markdown body. */
  datatype PostFile = PostFile(meta: Metadata, content: string)

  /** The front matter of a valid submission; an empty hero image is stored
      as `None`. */
  function MetadataOf(f: Fields): (m: Metadata)
    ensures m.heroImage.Some? ==> m.heroImage.value == f.heroImage
    ensures m.heroImage == None <==> f.heroImage == ""
    ensures FieldsOf(m, f.content) == f
  {
    Metadata(f.title, f.slug, f.date, f.description, f.excerpt,
      if f.heroImage != "" then Some(f.heroImage) else None, f.featured)
  }

  /** The fields a stored post reads back as: a hero image of `None` reads
      as "". */
  function FieldsOf(m: Metadata, content: string): Fields
  {
    Fields(m.title, m.slug, m.description, m.excerpt,
      if m.heroImage.Some? then m.heroImage.value else "", content, m.featured, m.date)
  }

  /** A hero image reading `none` or `null`, in any case, is stored as no
      hero image at all. */
  lemma HeroImageNoneOrNull(form: Form, today: string)
    requires Lower(Strip(FormGet(form, "hero_image"))) in {"none", "null"}
    ensures MetadataOf(ParseForm(form, today)).heroImage == None
  {
  }

  /** The entries of `a` and `b` agree outside `except`. */
  ghost predicate SameExcept(a: map<string, PostFile>, b: map<string, PostFile>, except: set<string>)
  {
    forall k :: k !in except ==> (k in a <==> k in b) && (k in a ==> a[k] == b[k])
  }

  /** The directory after `save_post`: a renamed post's old file is removed
      when it exists, then the target file holds the new post. */
  function SaveResult(files: map<string, PostFile>, slug: string, post: PostFile, original: Option<string>)
    : (r: map<string, PostFile>)
    ensures slug in r && r[slug] == post
    ensures Renamed(original, slug) ==> original.value !in r
    ensures r.Keys == if Renamed(original, slug) then files.Keys - {original.value} + {slug}
      else files.Keys + {slug}
    ensures SameExcept(files, r, if Renamed(original, slug) then {slug, original.value} else {slug})
  {
    var kept := if Renamed(original, slug) && original.value in files then files - {original.value} else files;
    kept[slug := post]
  }

  // ---------------------------------------------------------------------------
  // The file `save_post` unlinks, as a path
  // ---------------------------------------------------------------------------

  /** The length of the first segment of `p`: the index of its first '/', or
      its length when it has none. */
  function SegmentEnd(p: string): (n: nat)
    ensures n <= |p|
    ensures forall i :: 0 <= i < n ==> p[i] != '/'
    ensures n < |p| ==> p[n] == '/'
  {
    if p == [] || p[0] == '/' then 0 else 1 + SegmentEnd(p[1..])
  }

  /** The parts pathlib reads from a relative POSIX path: the segments between
      '/' characters, with the empty and "." segments dropped. A ".." segment
      is kept, as pathlib keeps it. */
  function PathParts(p: string): (parts: seq<string>)
    ensures forall i :: 0 <= i < |parts| ==> parts[i] != "" && parts[i] != "." && '/' !in parts[i]
    decreases |p|
  {
    var n := SegmentEnd(p);
    var rest := if n < |p| then PathParts(p[n + 1..]) else [];
    if p[..n] == "" || p[..n] == "." then rest else [p[..n]] + rest
  }

  /** A name without '/' other than "" and "." is a path of one part. */
  lemma PathPartsOfName(s: string)
    requires '/' !in s && s != "" && s != "."
    ensures PathParts(s) == [s]
  {
    assert SegmentEnd(s) == |s|;
    assert s[..|s|] == s;
  }

  /** The post whose file `content_dir / f'{original}.md'` is: `Some(k)` when
      the path is one part `k.md` of the content directory; `None` when it is
      an absolute path or has several parts (a subdirectory, or a ".." that
      leaves the directory). */
  function UnlinkedKey(original: string): (k: Option<string>)
    ensures k.Some? ==> !StartsWith(original, "/") && PathParts(original + ".md") == [k.value + ".md"]
  {
    var parts := PathParts(original + ".md");
    if StartsWith(original, "/") || |parts| != 1 then None
    else
      var name := parts[0];
      if |name| >= 3 && name[|name| - 3..] == ".md" then
        assert name == name[..|name| - 3] + ".md";
        Some(name[..|name| - 3])
      else None
  }

  /** A plain name, without '/', unlinks its own file. */
  lemma UnlinkedKeyOfName(original: string)
    requires '/' !in original && original != ""
    ensures UnlinkedKey(original) == Some(original)
  {
    var s := original + ".md";
    assert s[|s| - 1] == 'd';
    PathPartsOfName(s);
    assert s[..|s| - 3] == original;
  }

  /** `save_post` as written, with `original_slug` read as a path: the old
      file is `content_dir / f'{original}.md'`. The directory is the first
      component. The second is the path, relative to the content directory,
      of a file outside the directory's posts that is unlinked when it exists
      (`None` when there is none). */
  function SaveResultAsWritten(files: map<string, PostFile>, slug: string, post: PostFile, original: Option<string>)
    : (r: (map<string, PostFile>, Option<string>))
    ensures slug in r.0 && r.0[slug] == post
    ensures r.1.Some? ==> Renamed(original, slug) && UnlinkedKey(original.value).None?
  {
    if !Renamed(original, slug) then (files[slug := post], None)
    else match UnlinkedKey(original.value)
      case Some(k) => ((if k in files then files - {k} else files)[slug := post], None)
      case None => (files[slug := post], Some(original.value + ".md"))
  }

  /** For an `original_slug` without '/', reading it as a path changes
      nothing: the program removes exactly what `SaveResult` removes, and
      nothing outside the directory's posts. */
  lemma SaveResultAsWrittenOfName(files: map<string, PostFile>, slug: string, post: PostFile, original: Option<string>)
    requires original.Some? ==> '/' !in original.value
    ensures SaveResultAsWritten(files, slug, post, original) == (SaveResult(files, slug, post, original), None)
  {
    if Renamed(original, slug) {
      UnlinkedKeyOfName(original.value);
    }
  }

  /** `./bar` names the file of the post `bar`. */
  lemma UnlinkedKeyOfCurrentDir()
    ensures PathParts("./bar.md") == ["bar.md"]
    ensures UnlinkedKey("./bar") == Some("bar")
  {
    PathPartsOfCurrentDir();
    assert "./bar" + ".md" == "./bar.md";
    assert "./bar"[..1][0] == '.';
    assert "bar.md"[3..] == ".md" && "bar.md"[..3] == "bar";
  }

  lemma PathPartsOfCurrentDir()
    ensures PathParts("./bar.md") == ["bar.md"]
  {
    var a := "./bar.md";
    assert SegmentEnd(a) == 1;
    assert a[..1] == "." && a[2..] == "bar.md";
    PathPartsOfName("bar.md");
  }

  /** `../x` names a file in the directory above: no post of the directory. */
  lemma UnlinkedKeyOfParent()
    ensures PathParts("../x.md") == ["..", "x.md"]
    ensures UnlinkedKey("../x") == None
  {
    var b := "../x.md";
    assert "../x" + ".md" == b;
    assert SegmentEnd(b) == 2;
    assert b[..2] == ".." && b[3..] == "x.md";
    PathPartsOfName("x.md");
  }

  /** Two `original_slug` values that show `save_post` reading the field as a
      path. With the post `bar` in the directory, saving `baz`: `./bar`
      removes `bar.md`, which `SaveResult` keeps. */
  lemma OriginalSlugReadAsPath(p: PostFile, q: PostFile)
    ensures SaveResultAsWritten(map["bar" := p], "baz", q, Some("./bar")) == (map["baz" := q], None)
    ensures SaveResult(map["bar" := p], "baz", q, Some("./bar")) == map["bar" := p, "baz" := q]
  {
    UnlinkedKeyOfCurrentDir();
    assert map["bar" := p] - {"bar"} == map[];
  }

  /** And `../x` unlinks `../x.md`, a file in the directory above the content
      directory, which is no post of the directory. */
  lemma OriginalSlugLeavesDirectory(p: PostFile, q: PostFile)
    ensures SaveResultAsWritten(map["bar" := p], "baz", q, Some("../x")) == (map["bar" := p, "baz" := q], Some("../x.md"))
  {
    UnlinkedKeyOfParent();
    assert "../x" + ".md" == "../x.md";
    assert "../x"[0] != "baz"[0];
  }

  /** The outcome of a submission: rejected with its errors, or saved under a
      file name. */
  datatype Outcome = Rejected(errors: seq<ValidationError>) | Saved(fileName: string)

  /** The edit route names a post whose file exists (`post` is loaded). */
  predicate IsExisting(routeSlug: Option<string>, files: map<string, PostFile>)
  {
    routeSlug.Some? && routeSlug.value != "" && routeSlug.value in files
  }

  /** What a submission with fields `f` does to the content directory. */
  function Decide(files: map<string, PostFile>, f: Fields, routeSlug: Option<string>, original: Option<string>)
    : (Outcome, map<string, PostFile>)
  {
    var errs := ValidationErrors(f, IsExisting(routeSlug, files), original, files.Keys);
    if errs != [] then (Rejected(errs), files)
    else (Saved(f.slug + ".md"), SaveResult(files, f.slug, PostFile(MetadataOf(f), f.content), original))
  }

  /** What a submission does to the content directory: `edit_post` on a POST,
      with `save_post` when validation passes. */
  function Submission(files: map<string, PostFile>, form: Form, routeSlug: Option<string>, today: string)
    : (Outcome, map<string, PostFile>)
  {
    Decide(files, ParseForm(form, today), routeSlug, OriginalSlug(form, routeSlug))
  }

  /** The directory of post files, keyed by slug. */
  class ContentDirectory {
    var posts: map<string, PostFile>

    constructor(posts: map<string, PostFile>)
      ensures this.posts == posts
    {
      this.posts := posts;
    }

    /** `save_post`: delete the old file of a renamed post, write the target
        file, and return its name. */
    method SavePost(slug: string, meta: Metadata, content: string, original: Option<string>)
      returns (name: string)
      modifies this
      ensures posts == SaveResult(old(posts), slug, PostFile(meta, content), original)
      ensures name == slug + ".md"
    {
      if original.Some? && original.value != "" && original.value != slug {
        if original.value in posts {
          posts := posts - {original.value};
        }
      }
      posts := posts[slug := PostFile(meta, content)];
      name := slug + ".md";
    }

    /** `edit_post` on a POST: read the form, validate, and save when there
        are no errors. */
    method Submit(form: Form, routeSlug: Option<string>, today: string) returns (outcome: Outcome)
      modifies this
      ensures (outcome, posts) == Submission(old(posts), form, routeSlug, today)
    {
      var f := ParseForm(form, today);
      var original := OriginalSlug(form, routeSlug);
      var errors := Validate(f, IsExisting(routeSlug, posts), original, posts.Keys);
      if errors != [] {
        return Rejected(errors);
      }
      var name := SavePost(f.slug, MetadataOf(f), f.content, original);
      outcome := Saved(name);
    }
  }

  /** A rejected submission leaves the directory as it was and reports at
      least one error; a saved one has a title, content and a non-empty slug,
      and the file for that slug holds the submitted post. */
  lemma DecideOutcome(files: map<string, PostFile>, f: Fields, routeSlug: Option<string>, original: Option<string>)
    ensures var (outcome, after) := Decide(files, f, routeSlug, original);
      && (outcome.Rejected? ==> after == files && outcome.errors != [])
      && (outcome.Saved? ==>
            && f.title != "" && f.content != "" && f.slug != ""
            && outcome.fileName == f.slug + ".md"
            && f.slug in after && after[f.slug] == PostFile(MetadataOf(f), f.content))
  {
    ValidationErrorsReported(f, IsExisting(routeSlug, files), original, files.Keys);
  }

  /** A saved submission overwrites an existing file only when the edit route
      names an existing post and the target slug is the recorded previous
      slug: the form's `original_slug`, or else the route's slug. The form
      field can name another post's file. */
  lemma SavedNeverOverwritesAnother(files: map<string, PostFile>, form: Form, routeSlug: Option<string>, today: string)
    requires Submission(files, form, routeSlug, today).0.Saved?
    ensures var f := ParseForm(form, today);
      f.slug in files ==> IsExisting(routeSlug, files) && OriginalSlug(form, routeSlug) == Some(f.slug)
  {
    if IsExisting(routeSlug, files) {
      OriginalOfExisting(files, form, routeSlug);
    }
    DecideNeverOverwritesAnother(files, ParseForm(form, today), routeSlug, OriginalSlug(form, routeSlug));
  }

  /** The slug recorded as the previous one is non-empty whenever the edit
      route names an existing post. */
  lemma OriginalOfExisting(files: map<string, PostFile>, form: Form, routeSlug: Option<string>)
    requires IsExisting(routeSlug, files)
    ensures OriginalSlug(form, routeSlug).Some? && OriginalSlug(form, routeSlug).value != ""
  {
  }

  lemma DecideNeverOverwritesAnother(files: map<string, PostFile>, f: Fields, routeSlug: Option<string>, original: Option<string>)
    requires Decide(files, f, routeSlug, original).0.Saved?
    requires IsExisting(routeSlug, files) ==> original.Some? && original.value != ""
    ensures f.slug in files ==> IsExisting(routeSlug, files) && original == Some(f.slug)
  {
    ValidationErrorsReported(f, IsExisting(routeSlug, files), original, files.Keys);
  }

  /** Creating a post (the new-post route, with no `original_slug` in the
      form, so no previous slug) only adds a file: every existing post is
      kept as it was. */
  lemma CreateOnlyAdds(files: map<string, PostFile>, f: Fields)
    requires Decide(files, f, None, None).0.Saved?
    ensures var (_, after) := Decide(files, f, None, None);
      && f.slug !in files
      && after.Keys == files.Keys + {f.slug}
      && forall k :: k in files ==> after[k] == files[k]
  {
    DecideNeverOverwritesAnother(files, f, None, None);
  }

  /** Saving under a new slug moves the post: the old file is gone, the new
      one holds the post, and every other file is unchanged. */
  lemma RenameMovesPost(files: map<string, PostFile>, f: Fields, routeSlug: Option<string>, original: Option<string>)
    requires Decide(files, f, routeSlug, original).0.Saved?
    requires Renamed(original, f.slug)
    ensures var (_, after) := Decide(files, f, routeSlug, original);
      && original.value !in after
      && f.slug !in files
      && after[f.slug] == PostFile(MetadataOf(f), f.content)
      && SameExcept(files, after, {f.slug, original.value})
  {
    ValidationErrorsReported(f, IsExisting(routeSlug, files), original, files.Keys);
  }
}
