/**
 * The dashboard's list of posts (`load_all_posts` in
 * authoring_app/views.py): each readable post file becomes an entry whose
 * slug, title and date are normalised, and the entries are ordered from the
 * latest date string down, undated ones counting as `datetime.min`.
 */
module Dashboard {
  import opened Options
  import opened Text

  // ---------------------------------------------------------------------------
  // ISO dates
  // ---------------------------------------------------------------------------

  function Pow10(w: nat): (p: nat)
    ensures p >= 1
  {
    if w == 0 then 1 else 10 * Pow10(w - 1)
  }

  /** The decimal digit `d`. */
  function DigitChar(d: nat): char
    requires d < 10
  {
    ('0' as int + d) as char
  }

  /** `n` in decimal, zero-padded to `width` digits (`%0<width>d` for
      `n < 10^width`). */
  function Digits(n: nat, width: nat): (s: string)
    ensures |s| == width
    ensures forall i :: 0 <= i < |s| ==> '0' <= s[i] <= '9'
  {
    if width == 0 then "" else Digits(n / 10, width - 1) + [DigitChar(n % 10)]
  }

  /** The number a string of decimal digits reads as. */
  function NumeralValue(s: string): nat
    requires forall i :: 0 <= i < |s| ==> '0' <= s[i] <= '9'
  {
    if s == [] then 0
    else 10 * NumeralValue(s[..|s| - 1]) + (s[|s| - 1] as int - '0' as int)
  }

  /** The numeral reads back as `n`. */
  lemma {:induction false} DigitsValue(n: nat, width: nat)
    requires n < Pow10(width)
    ensures NumeralValue(Digits(n, width)) == n
    decreases width
  {
    if width > 0 {
      var s := Digits(n, width);
      assert s[..|s| - 1] == Digits(n / 10, width - 1);
      assert n == 10 * (n / 10) + n % 10;
      assert n / 10 < Pow10(width - 1);
      DigitsValue(n / 10, width - 1);
    }
  }

  /** Zero-padded numerals of the same width compare like the numbers. */
  lemma {:induction false} DigitsLess(n: nat, m: nat, w: nat)
    requires n < m < Pow10(w)
    ensures Less(Digits(n, w), Digits(m, w))
    decreases w
  {
    assert m / 10 < Pow10(w - 1);
    var a := Digits(n / 10, w - 1);
    var b := Digits(m / 10, w - 1);
    LessConcat(a, [DigitChar(n % 10)], b, [DigitChar(m % 10)]);
    if n / 10 < m / 10 {
      DigitsLess(n / 10, m / 10, w - 1);
    } else {
      assert n % 10 < m % 10;
    }
  }

  lemma DigitsOrder(n: nat, m: nat, w: nat)
    requires n < Pow10(w) && m < Pow10(w)
    ensures Less(Digits(n, w), Digits(m, w)) <==> n < m
    ensures Digits(n, w) == Digits(m, w) <==> n == m
  {
    LessIrreflexive(Digits(n, w));
    if n < m {
      DigitsLess(n, m, w);
      LessAsymmetric(Digits(n, w), Digits(m, w));
    } else if m < n {
      DigitsLess(m, n, w);
      LessAsymmetric(Digits(m, w), Digits(n, w));
    }
  }

  /** A calendar date as `datetime` holds it. */
  datatype Date = Date(year: nat, month: nat, day: nat)

  /** The ranges `datetime` guarantees. */
  predicate ValidDate(d: Date)
  {
    1 <= d.year <= 9999 && 1 <= d.month <= 12 && 1 <= d.day <= 31
  }

  /** A date a `datetime` can hold. */
  type CalendarDate = d: Date | ValidDate(d) witness Date(1, 1, 1)

  /** Chronological order of dates. */
  predicate Before(a: Date, b: Date)
  {
    a.year < b.year
    || (a.year == b.year && a.month < b.month)
    || (a.year == b.year && a.month == b.month && a.day < b.day)
  }

  /** `date.isoformat()`: `YYYY-MM-DD`. */
  function IsoDate(d: CalendarDate): (s: string)
    ensures |s| == 10 && s[4] == '-' && s[7] == '-'
  {
    Digits(d.year, 4) + ("-" + (Digits(d.month, 2) + ("-" + Digits(d.day, 2))))
  }

  /** ISO date strings sort exactly in chronological order. */
  lemma IsoDateOrder(a: CalendarDate, b: CalendarDate)
    ensures Less(IsoDate(a), IsoDate(b)) <==> Before(a, b)
  {
    DigitsOrder(a.year, b.year, 4);
    DigitsOrder(a.month, b.month, 2);
    DigitsOrder(a.day, b.day, 2);
    LessIrreflexive("-");
    var dayA := "-" + Digits(a.day, 2);
    var dayB := "-" + Digits(b.day, 2);
    LessConcat("-", Digits(a.day, 2), "-", Digits(b.day, 2));
    var monthA := Digits(a.month, 2) + dayA;
    var monthB := Digits(b.month, 2) + dayB;
    LessConcat(Digits(a.month, 2), dayA, Digits(b.month, 2), dayB);
    LessConcat("-", monthA, "-", monthB);
    LessConcat(Digits(a.year, 4), "-" + monthA, Digits(b.year, 4), "-" + monthB);
  }

  // ---------------------------------------------------------------------------
  // Sorting: `list.sort(key=..., reverse=True)`, which is stable
  // ---------------------------------------------------------------------------

  /** Place `x` before the first element whose key is not greater than its
      own, so that it stays ahead of equal keys. */
  function Insert<T>(x: T, s: seq<T>, key: T -> string): (r: seq<T>)
    ensures multiset(r) == multiset{x} + multiset(s)
  {
    if s == [] then [x]
    else if Less(key(x), key(s[0])) then
      assert s == [s[0]] + s[1..];
      [s[0]] + Insert(x, s[1..], key)
    else [x] + s
  }

  /** A stable sort by descending key. */
  function SortDesc<T>(s: seq<T>, key: T -> string): (r: seq<T>)
    ensures multiset(r) == multiset(s)
  {
    if s == [] then []
    else
      assert s == [s[0]] + s[1..];
      Insert(s[0], SortDesc(s[1..], key), key)
  }

  /** No key is less than a later one. */
  ghost predicate SortedDesc<T>(s: seq<T>, key: T -> string)
  {
    forall i, j :: 0 <= i < j < |s| ==> !Less(key(s[i]), key(s[j]))
  }

  /** No key in `s` exceeds `k`. */
  ghost predicate AllAtMost<T>(s: seq<T>, key: T -> string, k: string)
  {
    forall i :: 0 <= i < |s| ==> !Less(k, key(s[i]))
  }

  lemma SortedCons<T>(x: T, s: seq<T>, key: T -> string)
    requires SortedDesc(s, key) && AllAtMost(s, key, key(x))
    ensures SortedDesc([x] + s, key)
  {
    var r := [x] + s;
    forall i, j | 0 <= i < j < |r| ensures !Less(key(r[i]), key(r[j])) {
      if i > 0 { assert r[i] == s[i - 1] && r[j] == s[j - 1]; }
      else { assert r[j] == s[j - 1]; }
    }
  }

  lemma AllAtMostOfMultiset<T>(s: seq<T>, t: seq<T>, key: T -> string, k: string)
    requires AllAtMost(t, key, k) && multiset(s) == multiset(t)
    ensures AllAtMost(s, key, k)
  {
    forall i | 0 <= i < |s| ensures !Less(k, key(s[i])) {
      assert s[i] in multiset(t);
      var j :| 0 <= j < |t| && t[j] == s[i];
    }
  }

  lemma {:induction false} InsertSorted<T>(x: T, s: seq<T>, key: T -> string)
    requires SortedDesc(s, key)
    ensures SortedDesc(Insert(x, s, key), key)
  {
    if s == [] {
    } else if Less(key(x), key(s[0])) {
      var t := s[1..];
      assert SortedDesc(t, key) by {
        forall i, j | 0 <= i < j < |t| ensures !Less(key(t[i]), key(t[j])) {
          assert t[i] == s[i + 1] && t[j] == s[j + 1];
        }
      }
      InsertSorted(x, t, key);
      LessAsymmetric(key(x), key(s[0]));
      assert AllAtMost([x] + t, key, key(s[0])) by {
        forall i | 0 <= i < |t| + 1 ensures !Less(key(s[0]), key(([x] + t)[i])) {
          if i > 0 { assert ([x] + t)[i] == s[i]; }
        }
      }
      assert multiset(Insert(x, t, key)) == multiset([x] + t);
      AllAtMostOfMultiset(Insert(x, t, key), [x] + t, key, key(s[0]));
      SortedCons(s[0], Insert(x, t, key), key);
    } else {
      forall i | 0 <= i < |s| ensures !Less(key(x), key(s[i])) {
        if i > 0 { NotLessTransitive(key(x), key(s[0]), key(s[i])); }
      }
      SortedCons(x, s, key);
    }
  }

  /** The result of `SortDesc` is in descending key order. */
  lemma {:induction false} SortDescSorted<T>(s: seq<T>, key: T -> string)
    ensures SortedDesc(SortDesc(s, key), key)
  {
    if s != [] {
      SortDescSorted(s[1..], key);
      InsertSorted(s[0], SortDesc(s[1..], key), key);
    }
  }

  /** The elements of `s` whose key is `k`, in order. */
  function WithKey<T>(s: seq<T>, key: T -> string, k: string): seq<T>
  {
    if s == [] then []
    else if key(s[0]) == k then [s[0]] + WithKey(s[1..], key, k)
    else WithKey(s[1..], key, k)
  }

  lemma WithKeyCons<T>(x: T, s: seq<T>, key: T -> string, k: string)
    ensures key(x) == k ==> WithKey([x] + s, key, k) == [x] + WithKey(s, key, k)
    ensures key(x) != k ==> WithKey([x] + s, key, k) == WithKey(s, key, k)
  {
    assert ([x] + s)[1..] == s;
  }

  lemma {:induction false} InsertWithKey<T>(x: T, s: seq<T>, key: T -> string, k: string)
    ensures key(x) == k ==> WithKey(Insert(x, s, key), key, k) == [x] + WithKey(s, key, k)
    ensures key(x) != k ==> WithKey(Insert(x, s, key), key, k) == WithKey(s, key, k)
  {
    if s == [] {
      WithKeyCons(x, [], key, k);
    } else if Less(key(x), key(s[0])) {
      var t := Insert(x, s[1..], key);
      assert Insert(x, s, key) == [s[0]] + t;
      InsertWithKey(x, s[1..], key, k);
      WithKeyCons(s[0], t, key, k);
      WithKeyCons(s[0], s[1..], key, k);
      assert [s[0]] + s[1..] == s;
      if key(x) == k {
        LessIrreflexive(key(x));
        assert key(s[0]) != k;
      }
    } else {
      WithKeyCons(x, s, key, k);
    }
  }

  /** The sort is stable: posts with equal keys keep their relative order. */
  lemma {:induction false} SortDescStable<T>(s: seq<T>, key: T -> string, k: string)
    ensures WithKey(SortDesc(s, key), key, k) == WithKey(s, key, k)
  {
    if s != [] {
      SortDescStable(s[1..], key, k);
      InsertWithKey(s[0], SortDesc(s[1..], key), key, k);
    }
  }

  // ---------------------------------------------------------------------------
  // Loading the posts
  // ---------------------------------------------------------------------------

  /** A front-matter value for `slug` or `title`: missing, `null`, or a
      string. */
  datatype FieldValue = Absent | Null | Text(text: string)

  /** A front-matter `date`: missing or `null`, a `datetime`, or any other
      value, given by its `str()`. */
  datatype DateValue = NoDate | DateTime(date: CalendarDate) | Other(text: string)

  /** The front matter a readable post file yields. */
  datatype FrontMatter = FrontMatter(slug: FieldValue, title: FieldValue, date: DateValue)

  /** A `*.md` file of the content directory: its stem, its front matter
      (`None` when loading it raises), and its modification time. */
  datatype SourceFile = SourceFile(stem: string, front: Option<FrontMatter>, modified: int)

  /** A dashboard entry. */
  datatype Entry = Entry(slug: string, title: Option<string>, date: string, stem: string, updatedAt: int)

  /** The `date` shown for a post: a `datetime` becomes its ISO date,
      missing or `null` becomes "", anything else its `str()`. */
  function DateString(v: DateValue): (s: string)
    ensures v.DateTime? ==> s == IsoDate(v.date) && |s| == 10
    ensures v.NoDate? ==> s == ""
    ensures v.Other? ==> s == v.text
  {
    match v
    case NoDate => ""
    case DateTime(d) => IsoDate(d)
    case Other(text) => text
  }

  /** The entry for a readable file: the slug falls back to the stem when
      it is missing or empty, the title when it is missing (a `null` title
      stays `None`). */
  function EntryOf(stem: string, front: FrontMatter, modified: int): (e: Entry)
    ensures e.slug == (if front.slug.Text? && front.slug.text != "" then front.slug.text else stem)
    ensures e.title == match front.title
      case Absent => Some(stem)
      case Null => None
      case Text(t) => Some(t)
    ensures e.date == DateString(front.date)
    ensures e.stem == stem && e.updatedAt == modified
    ensures stem != "" ==> e.slug != ""
  {
    var slug := if front.slug.Text? && front.slug.text != "" then front.slug.text else stem;
    var title := match front.title
      case Absent => Some(stem)
      case Null => None
      case Text(t) => Some(t);
    Entry(slug, title, DateString(front.date), stem, modified)
  }

  /** The entries of the readable files, in the order of `files`. */
  function Loaded(files: seq<SourceFile>): seq<Entry>
  {
    if files == [] then []
    else
      var last := files[|files| - 1];
      Loaded(files[..|files| - 1])
        + if last.front.Some? then [EntryOf(last.stem, last.front.value, last.modified)] else []
  }

  /** `datetime.min.isoformat()`, "0001-01-01T00:00:00": the sort key of an
      undated post. */
  const MinKey: string := IsoDate(Date(1, 1, 1)) + "T00:00:00"

  /** `item.get('date') or datetime.min.isoformat()`. */
  function SortKey(e: Entry): string
  {
    if e.date != "" then e.date else MinKey
  }

  /** The sort key of an entry: its ISO date for a `datetime`, the `str()` of
      any other non-empty value, and `datetime.min` for a missing, `null` or
      empty date. */
  lemma EntrySortKey(stem: string, front: FrontMatter, modified: int)
    ensures var k := SortKey(EntryOf(stem, front, modified));
      && k != ""
      && (front.date.DateTime? ==> k == IsoDate(front.date.date))
      && (front.date.Other? && front.date.text != "" ==> k == front.date.text)
      && (front.date.NoDate? || front.date == Other("") ==> k == MinKey)
  {
  }

  /** Entries dated by `datetime` compare by their dates. */
  lemma DatedEntriesOrder(s1: string, f1: FrontMatter, m1: int, s2: string, f2: FrontMatter, m2: int)
    requires f1.date.DateTime? && f2.date.DateTime?
    ensures Less(SortKey(EntryOf(s1, f1, m1)), SortKey(EntryOf(s2, f2, m2)))
            <==> Before(f1.date.date, f2.date.date)
  {
    IsoDateOrder(f1.date.date, f2.date.date);
  }

  /** `load_all_posts`: read every file in turn, skipping those that fail to
      load, then sort by date, latest first. */
  method LoadAllPosts(files: seq<SourceFile>) returns (posts: seq<Entry>)
    ensures posts == SortDesc(Loaded(files), SortKey)
  {
    posts := [];
    for i := 0 to |files|
      invariant posts == Loaded(files[..i])
    {
      assert files[..i + 1][..i] == files[..i];
      var file := files[i];
      if file.front.Some? {
        var front := file.front.value;
        posts := posts + [EntryOf(file.stem, front, file.modified)];
      }
    }
    assert files[..|files|] == files;
    posts := SortDesc(posts, SortKey);
  }

  /** An entry is loaded exactly when some readable file yields it. */
  lemma {:induction false} LoadedIff(files: seq<SourceFile>, e: Entry)
    ensures e in Loaded(files) <==>
      exists i :: 0 <= i < |files| && files[i].front.Some?
        && e == EntryOf(files[i].stem, files[i].front.value, files[i].modified)
  {
    if files != [] {
      var init := files[..|files| - 1];
      LoadedIff(init, e);
      forall i | 0 <= i < |init| ensures init[i] == files[i] { }
    }
  }

  /** The dashboard lists every readable file once: as many entries as
      readable files. */
  lemma {:induction false} LoadedCount(files: seq<SourceFile>)
    ensures |Loaded(files)| == |set i | 0 <= i < |files| && files[i].front.Some?|
  {
    if files != [] {
      var init := files[..|files| - 1];
      LoadedCount(init);
      var a := set i | 0 <= i < |init| && init[i].front.Some?;
      var b := set i | 0 <= i < |files| && files[i].front.Some?;
      if files[|files| - 1].front.Some? {
        assert b == a + {|files| - 1};
      } else {
        assert b == a;
      }
    }
  }

  /** The dashboard is ordered by date, latest first, keeps every loaded
      entry once, and keeps the file order among entries with the same date. */
  lemma DashboardOrder(files: seq<SourceFile>, k: string)
    ensures var posts := SortDesc(Loaded(files), SortKey);
      && SortedDesc(posts, SortKey)
      && multiset(posts) == multiset(Loaded(files))
      && WithKey(posts, SortKey, k) == WithKey(Loaded(files), SortKey, k)
  {
    SortDescSorted(Loaded(files), SortKey);
    SortDescStable(Loaded(files), SortKey, k);
  }

  /** Of two listed posts dated by `datetime`, the earlier in the list is
      not the older. */
  lemma NewestFirst(posts: seq<Entry>, i: nat, j: nat, a: CalendarDate, b: CalendarDate)
    requires SortedDesc(posts, SortKey)
    requires i < j < |posts|
    requires posts[i].date == IsoDate(a) && posts[j].date == IsoDate(b)
    ensures !Before(a, b)
  {
    IsoDateOrder(a, b);
  }

  /** An undated post sorts above a post dated 0001-01-01: its key extends
      that date's ISO string. */
  lemma UndatedAboveMinDate()
    ensures Less(IsoDate(Date(1, 1, 1)), MinKey)
  {
    LessConcat(IsoDate(Date(1, 1, 1)), "", IsoDate(Date(1, 1, 1)), "T00:00:00");
    assert IsoDate(Date(1, 1, 1)) + "" == IsoDate(Date(1, 1, 1));
  }

  /** An undated post sorts below every post dated after 0001-01-01. */
  lemma UndatedBelowDated(d: CalendarDate)
    requires Before(Date(1, 1, 1), d)
    ensures Less(MinKey, IsoDate(d))
  {
    IsoDateOrder(Date(1, 1, 1), d);
    LessConcat(IsoDate(Date(1, 1, 1)), "T00:00:00", IsoDate(d), "");
    assert IsoDate(d) + "" == IsoDate(d);
  }
}
