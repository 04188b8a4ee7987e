/**
  * The font catalog built by `FontManager.get_installed_fonts`: registry
  * values of the machine hive and then the user hive are resolved against
  * their scope's font directory, kept only when the resolved file exists,
  * classified by a prefix test on the path, deduplicated on
  * (name, lower-cased path) with the first occurrence winning, and finally
  * sorted by name with a stable sort.
  *
  * This module holds the value-level specification of that catalog and the
  * properties proved about it; the loops that compute it are methods of
  * `FontRegistry.FontManager`.
  */
module Catalog {
  import opened Sequences
  import opened Paths

  /** Where a font is installed: machine-wide ("系统字体") or for the current user ("用户字体"). */
  datatype Scope = System | User

  /** A registry value: (value name, value data). */
  type Entry = (string, string)

  /** The values of one hive's Fonts key, in enumeration order. */
  type Hive = seq<Entry>

  /** One entry of the returned font list: the dict with keys name, file, path and type. */
  datatype FontRecord = FontRecord(name: string, file: string, path: string, scope: Scope)

  /** The deduplication key (name, path.lower()). */
  type Key = (string, string)

  function KeyOf(r: FontRecord): Key {
    (r.name, Lower(r.path))
  }

  /** `os.path.exists`: the file system is the set of lower-cased existing paths. */
  predicate Exists(files: set<string>, p: string) {
    Lower(p) in files
  }

  /** The path a stored value refers to: verbatim when absolute, else joined to the scope directory. */
  function Resolve(value: string, dir: string): string {
    if IsAbs(value) then value else Join(dir, value)
  }

  /** System exactly when the lower-cased path starts with the lower-cased system font directory. */
  function Classify(path: string, systemDir: string): Scope {
    if StartsWith(Lower(path), Lower(systemDir)) then System else User
  }

  /** The record a registry value would contribute when read against `dir`. */
  function Candidate(e: Entry, dir: string, systemDir: string): FontRecord {
    var path := Resolve(e.1, dir);
    FontRecord(e.0, e.1, path, Classify(path, systemDir))
  }

  function Candidates(es: Hive, dir: string, systemDir: string): (r: seq<FontRecord>)
    ensures |r| == |es|
    ensures forall i :: 0 <= i < |es| ==> r[i] == Candidate(es[i], dir, systemDir)
  {
    seq(|es|, i requires 0 <= i < |es| => Candidate(es[i], dir, systemDir))
  }

  /** The values an enumeration actually delivers when `EnumValue` fails at index `readable`. */
  function Readable(h: Hive, readable: nat): (r: Hive)
    ensures |r| <= |h| && r == h[..|r|]
    ensures readable >= |h| ==> r == h
  {
    if readable < |h| then h[..readable] else h
  }

  /** The enumerator's accumulators: the `fonts` list and the `added_fonts` set. */
  datatype ScanState = ScanState(fonts: seq<FontRecord>, added: set<Key>)

  const EmptyScan := ScanState([], {})

  /** One iteration of the enumeration loop on a resolved candidate. */
  function Step(st: ScanState, c: FontRecord, files: set<string>): ScanState {
    if Exists(files, c.path) && KeyOf(c) !in st.added then
      ScanState(st.fonts + [c], st.added + {KeyOf(c)})
    else st
  }

  /** The loop run over a whole candidate sequence. */
  function Scan(st: ScanState, cs: seq<FontRecord>, files: set<string>): ScanState
    decreases |cs|
  {
    if cs == [] then st else Step(Scan(st, cs[..|cs| - 1], files), cs[|cs| - 1], files)
  }

  /** One more enumerated value is one more loop iteration. */
  lemma ScanSnoc(st: ScanState, es: Hive, i: nat, dir: string, systemDir: string, files: set<string>)
    requires i < |es|
    ensures Scan(st, Candidates(es[..i + 1], dir, systemDir), files)
         == Step(Scan(st, Candidates(es[..i], dir, systemDir), files), Candidate(es[i], dir, systemDir), files)
  {
    var cs := Candidates(es[..i], dir, systemDir);
    assert Candidates(es[..i + 1], dir, systemDir) == cs + [Candidate(es[i], dir, systemDir)];
    assert (cs + [Candidate(es[i], dir, systemDir)])[..|cs|] == cs;
  }

  /** The records both loops keep, in scan order, before sorting. */
  function Kept(cs: seq<FontRecord>, files: set<string>): seq<FontRecord> {
    Scan(EmptyScan, cs, files).fonts
  }

  /** System-hive candidates first, then user-hive candidates: the scan order. */
  function AllCandidates(systemRead: Hive, userRead: Hive, systemDir: string, userDir: string): seq<FontRecord> {
    Candidates(systemRead, systemDir, systemDir) + Candidates(userRead, userDir, systemDir)
  }

  /** The list `get_installed_fonts` returns for the values read from the two hives. */
  function FontCatalog(systemRead: Hive, userRead: Hive, files: set<string>, systemDir: string, userDir: string): seq<FontRecord> {
    SortByName(Kept(AllCandidates(systemRead, userRead, systemDir, userDir), files))
  }

  // ---------------------------------------------------------------------
  // Python's string order and the stable sort of `sorted(..., key=name)`
  // ---------------------------------------------------------------------

  /** `a <= b` on Python strings: lexicographic by code point. */
  predicate LexLe(a: string, b: string) {
    a == [] || (b != [] && (a[0] < b[0] || (a[0] == b[0] && LexLe(a[1..], b[1..]))))
  }

  lemma {:induction false} LexLeRefl(a: string)
    ensures LexLe(a, a)
  {
    if a != [] {
      LexLeRefl(a[1..]);
    }
  }

  lemma {:induction false} LexLeTotal(a: string, b: string)
    ensures LexLe(a, b) || LexLe(b, a)
  {
    if a != [] && b != [] && a[0] == b[0] {
      LexLeTotal(a[1..], b[1..]);
    }
  }

  lemma {:induction false} LexLeTrans(a: string, b: string, c: string)
    requires LexLe(a, b) && LexLe(b, c)
    ensures LexLe(a, c)
  {
    if a != [] && b != [] && c != [] && a[0] == b[0] && b[0] == c[0] {
      LexLeTrans(a[1..], b[1..], c[1..]);
    }
  }

  predicate SortedByName(s: seq<FontRecord>) {
    forall i, j :: 0 <= i < j < |s| ==> LexLe(s[i].name, s[j].name)
  }

  /** Places `x` before the first record whose name is not smaller: earlier records win ties. */
  function InsertByName(x: FontRecord, s: seq<FontRecord>): seq<FontRecord> {
    if s == [] then [x]
    else if LexLe(x.name, s[0].name) then [x] + s
    else [s[0]] + InsertByName(x, s[1..])
  }

  function SortByName(s: seq<FontRecord>): seq<FontRecord> {
    if s == [] then [] else InsertByName(s[0], SortByName(s[1..]))
  }

  /** The records of `s` carrying name `n`, in order. */
  function WithName(s: seq<FontRecord>, n: string): seq<FontRecord> {
    if s == [] then []
    else if s[0].name == n then [s[0]] + WithName(s[1..], n)
    else WithName(s[1..], n)
  }

  predicate UniqueKeys(s: seq<FontRecord>) {
    forall i, j :: 0 <= i < j < |s| ==> KeyOf(s[i]) != KeyOf(s[j])
  }

  lemma {:induction false} InsertPermutes(x: FontRecord, s: seq<FontRecord>)
    ensures multiset(InsertByName(x, s)) == multiset(s) + multiset{x}
  {
    if s != [] && !LexLe(x.name, s[0].name) {
      InsertPermutes(x, s[1..]);
      assert s == [s[0]] + s[1..];
    }
  }

  lemma {:induction false} InsertSorted(x: FontRecord, s: seq<FontRecord>)
    requires SortedByName(s)
    ensures SortedByName(InsertByName(x, s))
  {
    if s == [] {
    } else if LexLe(x.name, s[0].name) {
      forall j | 0 <= j < |s| ensures LexLe(x.name, s[j].name) {
        if j > 0 {
          LexLeTrans(x.name, s[0].name, s[j].name);
        }
      }
    } else {
      var r := InsertByName(x, s[1..]);
      InsertSorted(x, s[1..]);
      InsertPermutes(x, s[1..]);
      LexLeTotal(x.name, s[0].name);
      forall j | 0 <= j < |r| ensures LexLe(s[0].name, r[j].name) {
        assert r[j] in multiset(r);
        if r[j] != x {
          assert r[j] in s[1..];
          var m :| 0 <= m < |s[1..]| && s[1..][m] == r[j];
          assert s[m + 1] == r[j];
        }
      }
      assert InsertByName(x, s) == [s[0]] + r;
    }
  }

  lemma {:induction false} InsertWithName(x: FontRecord, s: seq<FontRecord>, n: string)
    ensures WithName(InsertByName(x, s), n) == WithName([x] + s, n)
  {
    if s == [] {
    } else if LexLe(x.name, s[0].name) {
    } else {
      InsertWithName(x, s[1..], n);
      if x.name == n {
        LexLeRefl(n);
        assert s[0].name != n;
      }
      assert ([x] + s)[1..] == s;
      assert ([x] + s[1..])[1..] == s[1..];
      assert ([s[0]] + InsertByName(x, s[1..]))[1..] == InsertByName(x, s[1..]);
    }
  }

  /** Putting a record whose key is new in front keeps keys unique. */
  lemma ConsUnique(x: FontRecord, s: seq<FontRecord>)
    requires UniqueKeys(s)
    requires forall y :: y in s ==> KeyOf(y) != KeyOf(x)
    ensures UniqueKeys([x] + s)
  {
    forall i, j | 0 <= i < j < |[x] + s| ensures KeyOf(([x] + s)[i]) != KeyOf(([x] + s)[j]) {
      if i == 0 {
        assert ([x] + s)[j] == s[j - 1];
        assert s[j - 1] in s;
      } else {
        assert ([x] + s)[i] == s[i - 1] && ([x] + s)[j] == s[j - 1];
      }
    }
  }

  /** The tail of a sequence with unique keys has unique keys, none of them the head's. */
  lemma TailUnique(s: seq<FontRecord>)
    requires s != [] && UniqueKeys(s)
    ensures UniqueKeys(s[1..])
    ensures forall y :: y in s[1..] ==> KeyOf(y) != KeyOf(s[0])
  {
    forall i, j | 0 <= i < j < |s[1..]| ensures KeyOf(s[1..][i]) != KeyOf(s[1..][j]) {
      assert s[1..][i] == s[i + 1] && s[1..][j] == s[j + 1];
    }
    forall y | y in s[1..] ensures KeyOf(y) != KeyOf(s[0]) {
      var m :| 0 <= m < |s[1..]| && s[1..][m] == y;
      assert s[m + 1] == y;
    }
  }

  lemma {:induction false} InsertUnique(x: FontRecord, s: seq<FontRecord>)
    requires UniqueKeys(s)
    requires forall y :: y in s ==> KeyOf(y) != KeyOf(x)
    ensures UniqueKeys(InsertByName(x, s))
  {
    if s == [] {
    } else if LexLe(x.name, s[0].name) {
      ConsUnique(x, s);
    } else {
      var r := InsertByName(x, s[1..]);
      TailUnique(s);
      assert forall y :: y in s[1..] ==> y in s;
      InsertUnique(x, s[1..]);
      InsertPermutes(x, s[1..]);
      assert s[0] in s;
      forall y | y in r ensures KeyOf(y) != KeyOf(s[0]) {
        assert y in multiset(r);
      }
      ConsUnique(s[0], r);
    }
  }


  lemma {:induction false} SortSortedPermutes(s: seq<FontRecord>)
    ensures SortedByName(SortByName(s))
    ensures multiset(SortByName(s)) == multiset(s)
  {
    if s != [] {
      var t := SortByName(s[1..]);
      SortSortedPermutes(s[1..]);
      InsertSorted(s[0], t);
      InsertPermutes(s[0], t);
      assert s == [s[0]] + s[1..];
    }
  }

  lemma {:induction false} SortStable(s: seq<FontRecord>)
    ensures forall n :: WithName(SortByName(s), n) == WithName(s, n)
  {
    if s != [] {
      var t := SortByName(s[1..]);
      SortStable(s[1..]);
      forall n ensures WithName(SortByName(s), n) == WithName(s, n) {
        InsertWithName(s[0], t, n);
        assert ([s[0]] + t)[1..] == t;
      }
    }
  }

  lemma {:induction false} SortUnique(s: seq<FontRecord>)
    requires UniqueKeys(s)
    ensures UniqueKeys(SortByName(s))
  {
    if s != [] {
      var t := SortByName(s[1..]);
      TailUnique(s);
      SortUnique(s[1..]);
      SortSortedPermutes(s[1..]);
      forall y | y in t ensures KeyOf(y) != KeyOf(s[0]) {
        assert y in multiset(t);
      }
      InsertUnique(s[0], t);
    }
  }


  /** `sorted(fonts, key=name)`: ordered by name, a permutation, stable, and keeps keys unique. */
  lemma SortByNameCorrect(s: seq<FontRecord>)
    ensures SortedByName(SortByName(s))
    ensures multiset(SortByName(s)) == multiset(s)
    ensures forall n :: WithName(SortByName(s), n) == WithName(s, n)
    ensures UniqueKeys(s) ==> UniqueKeys(SortByName(s))
  {
    SortSortedPermutes(s);
    SortStable(s);
    if UniqueKeys(s) {
      SortUnique(s);
    }
  }

  // ---------------------------------------------------------------------
  // The deduplicating scan
  // ---------------------------------------------------------------------

  /** Candidate `j` exists on disk and no earlier existing candidate has its key. */
  predicate FirstKept(cs: seq<FontRecord>, files: set<string>, j: int) {
    0 <= j < |cs| && Exists(files, cs[j].path)
    && forall i :: 0 <= i < j && Exists(files, cs[i].path) ==> KeyOf(cs[i]) != KeyOf(cs[j])
  }

  /** Candidate `j` exists on disk. */
  predicate Present(cs: seq<FontRecord>, files: set<string>, j: int) {
    0 <= j < |cs| && Exists(files, cs[j].path)
  }

  lemma {:induction false} ScanAppend(st: ScanState, a: seq<FontRecord>, b: seq<FontRecord>, files: set<string>)
    ensures Scan(st, a + b, files) == Scan(Scan(st, a, files), b, files)
    decreases |b|
  {
    if b == [] {
      assert a + b == a;
    } else {
      assert (a + b)[..|a + b| - 1] == a + b[..|b| - 1];
      assert (a + b)[|a + b| - 1] == b[|b| - 1];
      ScanAppend(st, a, b[..|b| - 1], files);
    }
  }

  /** Removing the last candidate changes neither presence nor first occurrence of the others. */
  lemma PrefixAgrees(cs: seq<FontRecord>, files: set<string>)
    requires cs != []
    ensures var pre := cs[..|cs| - 1];
      forall j :: 0 <= j < |pre| ==> (cs[j] == pre[j]
        && (Present(cs, files, j) <==> Present(pre, files, j))
        && (FirstKept(cs, files, j) <==> FirstKept(pre, files, j)))
  {
  }

  /** `added` holds exactly the keys of the existing candidates. */
  lemma {:induction false} ScanAdded(cs: seq<FontRecord>, files: set<string>)
    ensures forall k :: (k in Scan(EmptyScan, cs, files).added
      <==> exists j :: Present(cs, files, j) && KeyOf(cs[j]) == k)
    decreases |cs|
  {
    if cs != [] {
      var pre := cs[..|cs| - 1];
      var c := cs[|cs| - 1];
      var added0 := Scan(EmptyScan, pre, files).added;
      var added := Scan(EmptyScan, cs, files).added;
      ScanAdded(pre, files);
      PrefixAgrees(cs, files);
      assert added == if Exists(files, c.path) then added0 + {KeyOf(c)} else added0;
      forall k ensures k in added <==> exists j :: Present(cs, files, j) && KeyOf(cs[j]) == k {
        if k in added0 {
          var j :| Present(pre, files, j) && KeyOf(pre[j]) == k;
          assert Present(cs, files, j) && KeyOf(cs[j]) == k;
        } else if k in added {
          assert Present(cs, files, |pre|) && KeyOf(cs[|pre|]) == k;
        } else {
          forall j | Present(cs, files, j) ensures KeyOf(cs[j]) != k {
            if j < |pre| {
              assert Present(pre, files, j);
            }
          }
        }
      }
    }
  }

  /** The last candidate is the first of its key exactly when it exists and its key is not yet added. */
  lemma LastFirstKept(cs: seq<FontRecord>, files: set<string>)
    requires cs != []
    ensures FirstKept(cs, files, |cs| - 1) <==>
      Exists(files, cs[|cs| - 1].path) && KeyOf(cs[|cs| - 1]) !in Scan(EmptyScan, cs[..|cs| - 1], files).added
  {
    var pre := cs[..|cs| - 1];
    var c := cs[|cs| - 1];
    ScanAdded(pre, files);
    PrefixAgrees(cs, files);
    if Exists(files, c.path) && KeyOf(c) in Scan(EmptyScan, pre, files).added {
      var j :| Present(pre, files, j) && KeyOf(pre[j]) == KeyOf(c);
      assert Present(cs, files, j) && KeyOf(cs[j]) == KeyOf(c);
    }
  }

  /** `fonts` holds exactly the first existing candidate of every key. */
  lemma {:induction false} ScanFonts(cs: seq<FontRecord>, files: set<string>)
    ensures forall x :: (x in Scan(EmptyScan, cs, files).fonts
      <==> exists j :: FirstKept(cs, files, j) && x == cs[j])
    decreases |cs|
  {
    if cs != [] {
      var pre := cs[..|cs| - 1];
      var c := cs[|cs| - 1];
      var st0 := Scan(EmptyScan, pre, files);
      var st := Scan(EmptyScan, cs, files);
      ScanFonts(pre, files);
      PrefixAgrees(cs, files);
      LastFirstKept(cs, files);
      forall x ensures x in st.fonts <==> exists j :: FirstKept(cs, files, j) && x == cs[j] {
        if exists j :: FirstKept(cs, files, j) && x == cs[j] {
          var j :| FirstKept(cs, files, j) && x == cs[j];
          if j < |pre| {
            assert FirstKept(pre, files, j) && x == pre[j];
          }
        }
        if x in st0.fonts {
          var j :| FirstKept(pre, files, j) && x == pre[j];
          assert FirstKept(cs, files, j) && x == cs[j];
        }
        if x in st.fonts && x !in st0.fonts {
          assert x == c;
          assert FirstKept(cs, files, |pre|);
        }
      }
    }
  }

  /** The kept records have distinct keys and appear in scan order. */
  lemma {:induction false} ScanUniqueInOrder(cs: seq<FontRecord>, files: set<string>)
    ensures UniqueKeys(Scan(EmptyScan, cs, files).fonts)
    ensures IsSubseq(Scan(EmptyScan, cs, files).fonts, cs)
    decreases |cs|
  {
    if cs != [] {
      var pre := cs[..|cs| - 1];
      var c := cs[|cs| - 1];
      var st0 := Scan(EmptyScan, pre, files);
      ScanUniqueInOrder(pre, files);
      ScanFonts(pre, files);
      ScanAdded(pre, files);
      assert cs == pre + [c];
      if Exists(files, c.path) && KeyOf(c) !in st0.added {
        forall i | 0 <= i < |st0.fonts| ensures KeyOf(st0.fonts[i]) != KeyOf(c) {
          assert st0.fonts[i] in st0.fonts;
          var j :| FirstKept(pre, files, j) && st0.fonts[i] == pre[j];
          assert Present(pre, files, j);
        }
        SubseqAppendBoth(st0.fonts, pre, c);
      } else {
        SubseqAppendRight(st0.fonts, pre, c);
      }
    }
  }

  /**
    * What the scan keeps: `added` holds the keys of all existing candidates;
    * `fonts` holds exactly the first existing candidate of every key, each
    * once, in scan order.
    */
  lemma ScanKeepsFirstOccurrences(cs: seq<FontRecord>, files: set<string>)
    ensures var st := Scan(EmptyScan, cs, files);
      && (forall k :: k in st.added <==> exists j :: Present(cs, files, j) && KeyOf(cs[j]) == k)
      && (forall x :: x in st.fonts <==> exists j :: FirstKept(cs, files, j) && x == cs[j])
      && UniqueKeys(st.fonts)
      && IsSubseq(st.fonts, cs)
  {
    ScanAdded(cs, files);
    ScanFonts(cs, files);
    ScanUniqueInOrder(cs, files);
  }

  // ---------------------------------------------------------------------
  // Properties of the catalog
  // ---------------------------------------------------------------------

  /**
    * Membership: a record is in the catalog exactly when it is the first
    * existing candidate of its (name, lower(path)) key in scan order, the
    * system hive being scanned first.
    */
  lemma CatalogMembers(systemRead: Hive, userRead: Hive, files: set<string>, systemDir: string, userDir: string)
    ensures var cs := AllCandidates(systemRead, userRead, systemDir, userDir);
      forall x :: x in FontCatalog(systemRead, userRead, files, systemDir, userDir)
        <==> exists j :: FirstKept(cs, files, j) && x == cs[j]
  {
    var cs := AllCandidates(systemRead, userRead, systemDir, userDir);
    ScanKeepsFirstOccurrences(cs, files);
    SortByNameCorrect(Kept(cs, files));
    forall x ensures x in FontCatalog(systemRead, userRead, files, systemDir, userDir) <==> x in Kept(cs, files) {
      assert x in FontCatalog(systemRead, userRead, files, systemDir, userDir) <==> x in multiset(Kept(cs, files));
    }
  }

  /** No two catalog records share a (name, lower(path)) key. */
  lemma CatalogUniqueKeys(systemRead: Hive, userRead: Hive, files: set<string>, systemDir: string, userDir: string)
    ensures UniqueKeys(FontCatalog(systemRead, userRead, files, systemDir, userDir))
  {
    var cs := AllCandidates(systemRead, userRead, systemDir, userDir);
    ScanKeepsFirstOccurrences(cs, files);
    SortByNameCorrect(Kept(cs, files));
  }

  /**
    * Order: the catalog is sorted by name; the records with any one name
    * appear in the order the scan kept them, which is scan order.
    */
  lemma CatalogOrder(systemRead: Hive, userRead: Hive, files: set<string>, systemDir: string, userDir: string)
    ensures var cs := AllCandidates(systemRead, userRead, systemDir, userDir);
      var cat := FontCatalog(systemRead, userRead, files, systemDir, userDir);
      && SortedByName(cat)
      && IsSubseq(Kept(cs, files), cs)
      && forall n :: WithName(cat, n) == WithName(Kept(cs, files), n)
  {
    var cs := AllCandidates(systemRead, userRead, systemDir, userDir);
    ScanKeepsFirstOccurrences(cs, files);
    SortByNameCorrect(Kept(cs, files));
  }

  /** `r` was produced by a value of hive `h` whose data, resolved against `dir`, is `r.path`. */
  predicate FromHive(r: FontRecord, h: Hive, dir: string) {
    exists e :: e in h && r.name == e.0 && r.file == e.1
      && r.path == (if IsAbs(e.1) then e.1 else Join(dir, e.1))
  }

  /** The record candidate `j` of the scan stands for comes from a value of one of the hives. */
  lemma CandidateOrigin(systemRead: Hive, userRead: Hive, systemDir: string, userDir: string, j: int)
    requires 0 <= j < |AllCandidates(systemRead, userRead, systemDir, userDir)|
    ensures var r := AllCandidates(systemRead, userRead, systemDir, userDir)[j];
      && r.scope == Classify(r.path, systemDir)
      && (FromHive(r, systemRead, systemDir) || FromHive(r, userRead, userDir))
  {
    var cs := AllCandidates(systemRead, userRead, systemDir, userDir);
    var sc := Candidates(systemRead, systemDir, systemDir);
    if j < |sc| {
      assert cs[j] == Candidate(systemRead[j], systemDir, systemDir);
      assert systemRead[j] in systemRead;
    } else {
      assert cs[j] == Candidate(userRead[j - |sc|], userDir, systemDir);
      assert userRead[j - |sc|] in userRead;
    }
  }

  /** The name of scan candidate `j` is the name of the value it was read from. */
  lemma CandidateName(systemRead: Hive, userRead: Hive, systemDir: string, userDir: string, j: int)
    requires 0 <= j < |systemRead| + |userRead|
    ensures |AllCandidates(systemRead, userRead, systemDir, userDir)| == |systemRead| + |userRead|
    ensures AllCandidates(systemRead, userRead, systemDir, userDir)[j].name
      == if j < |systemRead| then systemRead[j].0 else userRead[j - |systemRead|].0
  {
    var cs := AllCandidates(systemRead, userRead, systemDir, userDir);
    if j < |systemRead| {
      assert cs[j] == Candidate(systemRead[j], systemDir, systemDir);
    } else {
      assert cs[j] == Candidate(userRead[j - |systemRead|], userDir, systemDir);
    }
  }

  /**
    * Every record refers to an existing file, is classified by its path, and
    * comes from a value of one of the hives resolved against that hive's
    * directory: verbatim when absolute, joined otherwise.
    */
  lemma CatalogRecordsResolved(systemRead: Hive, userRead: Hive, files: set<string>, systemDir: string, userDir: string)
    ensures forall r :: r in FontCatalog(systemRead, userRead, files, systemDir, userDir) ==>
      && Exists(files, r.path)
      && r.scope == (if StartsWith(Lower(r.path), Lower(systemDir)) then System else User)
      && (FromHive(r, systemRead, systemDir) || FromHive(r, userRead, userDir))
  {
    var cs := AllCandidates(systemRead, userRead, systemDir, userDir);
    CatalogMembers(systemRead, userRead, files, systemDir, userDir);
    forall r | r in FontCatalog(systemRead, userRead, files, systemDir, userDir)
      ensures Exists(files, r.path)
      ensures r.scope == Classify(r.path, systemDir)
      ensures FromHive(r, systemRead, systemDir) || FromHive(r, userRead, userDir)
    {
      var j :| FirstKept(cs, files, j) && r == cs[j];
      CandidateOrigin(systemRead, userRead, systemDir, userDir, j);
    }
  }

  /** Some record of `cat` has key `k`. */
  predicate Listed(cat: seq<FontRecord>, k: Key) {
    exists r :: r in cat && KeyOf(r) == k
  }

  /** An existing value at position `m` of the system hive is represented in the catalog. */
  lemma SystemValueListed(systemRead: Hive, userRead: Hive, files: set<string>, systemDir: string, userDir: string, m: int)
    requires 0 <= m < |systemRead| && Exists(files, Resolve(systemRead[m].1, systemDir))
    ensures Listed(FontCatalog(systemRead, userRead, files, systemDir, userDir),
                   (systemRead[m].0, Lower(Resolve(systemRead[m].1, systemDir))))
  {
    var cs := AllCandidates(systemRead, userRead, systemDir, userDir);
    assert cs[m] == Candidate(systemRead[m], systemDir, systemDir);
    FirstOfKeyKept(cs, files, m);
    var i :| FirstKept(cs, files, i) && KeyOf(cs[i]) == KeyOf(cs[m]);
    CatalogMembers(systemRead, userRead, files, systemDir, userDir);
    assert cs[i] in FontCatalog(systemRead, userRead, files, systemDir, userDir);
  }

  /** An existing value at position `m` of the user hive is represented in the catalog. */
  lemma UserValueListed(systemRead: Hive, userRead: Hive, files: set<string>, systemDir: string, userDir: string, m: int)
    requires 0 <= m < |userRead| && Exists(files, Resolve(userRead[m].1, userDir))
    ensures Listed(FontCatalog(systemRead, userRead, files, systemDir, userDir),
                   (userRead[m].0, Lower(Resolve(userRead[m].1, userDir))))
  {
    var cs := AllCandidates(systemRead, userRead, systemDir, userDir);
    var j := |systemRead| + m;
    assert cs[j] == Candidate(userRead[m], userDir, systemDir);
    FirstOfKeyKept(cs, files, j);
    var i :| FirstKept(cs, files, i) && KeyOf(cs[i]) == KeyOf(cs[j]);
    CatalogMembers(systemRead, userRead, files, systemDir, userDir);
    assert cs[i] in FontCatalog(systemRead, userRead, files, systemDir, userDir);
  }

  /** Every value whose resolved file exists is represented by a catalog record with its key. */
  lemma CatalogComplete(systemRead: Hive, userRead: Hive, files: set<string>, systemDir: string, userDir: string)
    ensures forall e :: e in systemRead && Exists(files, Resolve(e.1, systemDir)) ==>
      Listed(FontCatalog(systemRead, userRead, files, systemDir, userDir), (e.0, Lower(Resolve(e.1, systemDir))))
    ensures forall e :: e in userRead && Exists(files, Resolve(e.1, userDir)) ==>
      Listed(FontCatalog(systemRead, userRead, files, systemDir, userDir), (e.0, Lower(Resolve(e.1, userDir))))
  {
    forall e | e in systemRead && Exists(files, Resolve(e.1, systemDir))
      ensures Listed(FontCatalog(systemRead, userRead, files, systemDir, userDir), (e.0, Lower(Resolve(e.1, systemDir))))
    {
      var m :| 0 <= m < |systemRead| && systemRead[m] == e;
      SystemValueListed(systemRead, userRead, files, systemDir, userDir, m);
    }
    forall e | e in userRead && Exists(files, Resolve(e.1, userDir))
      ensures Listed(FontCatalog(systemRead, userRead, files, systemDir, userDir), (e.0, Lower(Resolve(e.1, userDir))))
    {
      var m :| 0 <= m < |userRead| && userRead[m] == e;
      UserValueListed(systemRead, userRead, files, systemDir, userDir, m);
    }
  }

  /** Any existing candidate has a first existing candidate with the same key. */
  lemma {:induction false} FirstOfKeyKept(cs: seq<FontRecord>, files: set<string>, j: int)
    requires Present(cs, files, j)
    ensures exists i :: FirstKept(cs, files, i) && KeyOf(cs[i]) == KeyOf(cs[j])
    decreases j
  {
    if !FirstKept(cs, files, j) {
      var i :| 0 <= i < j && Exists(files, cs[i].path) && KeyOf(cs[i]) == KeyOf(cs[j]);
      FirstOfKeyKept(cs, files, i);
    }
  }

  /**
    * The system hive wins: when an existing system-hive value has the same
    * key as a user-hive value, the catalog's record for that key is a
    * system-hive record.
    */
  lemma SystemHiveWins(systemRead: Hive, userRead: Hive, files: set<string>, systemDir: string, userDir: string, e: Entry)
    requires e in systemRead && Exists(files, Resolve(e.1, systemDir))
    ensures forall r :: (r in FontCatalog(systemRead, userRead, files, systemDir, userDir)
      && KeyOf(r) == (e.0, Lower(Resolve(e.1, systemDir)))) ==> r in Candidates(systemRead, systemDir, systemDir)
  {
    var cs := AllCandidates(systemRead, userRead, systemDir, userDir);
    var sc := Candidates(systemRead, systemDir, systemDir);
    CatalogMembers(systemRead, userRead, files, systemDir, userDir);
    var m :| 0 <= m < |systemRead| && systemRead[m] == e;
    assert cs[m] == sc[m];
    forall r | r in FontCatalog(systemRead, userRead, files, systemDir, userDir)
      && KeyOf(r) == (e.0, Lower(Resolve(e.1, systemDir)))
      ensures r in sc
    {
      var j :| FirstKept(cs, files, j) && r == cs[j];
      if j >= |sc| {
        assert false;
      }
      assert cs[j] == sc[j];
    }
  }

  /** A relative value of the system hive without a drive always yields a record classified as system. */
  lemma RelativeSystemValueIsSystem(e: Entry, systemDir: string)
    requires !IsAbs(e.1) && !HasDrive(e.1)
    ensures Candidate(e, systemDir, systemDir).scope == System
  {
    JoinBelow(systemDir, e.1);
  }

  /**
    * A system-hive value naming another drive without a root ("D:arial.ttf")
    * is not joined to the system directory: it resolves to itself, which is
    * not below that directory, so its record is classified as user.
    */
  lemma DriveRelativeSystemValueIsUser(e: Entry, systemDir: string)
    requires HasDrive(systemDir) && HasDrive(e.1) && !IsAbs(e.1)
    requires Lower(e.1[..2]) != Lower(systemDir[..2])
    ensures Candidate(e, systemDir, systemDir).path == e.1
    ensures Candidate(e, systemDir, systemDir).scope == User
  {
    assert Resolve(e.1, systemDir) == Join(systemDir, e.1) == e.1;
    assert Lower(e.1)[..2] == Lower(e.1[..2]);
    assert Lower(systemDir)[..2] == Lower(systemDir[..2]);
  }
}
