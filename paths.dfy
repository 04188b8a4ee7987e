/**
  * The string and Windows-path primitives the font registry engine calls:
  * `str.lower()`, `ntpath.isabs`, `ntpath.join`, `ntpath.basename`,
  * `ntpath.splitext`, `str.strip()` and substring search (the `in`
  * operator on strings and `str.split(sep)[0]`).
  * Case folding is restricted to ASCII letters.
  */
module Paths {
  import opened Sequences

  /** The two separators Windows paths accept. */
  predicate IsSep(c: char) {
    c == '\\' || c == '/'
  }

  function LowerChar(c: char): char {
    if 'A' <= c <= 'Z' then (c as int + 32) as char else c
  }

  function Lower(s: string): (r: string)
    ensures |r| == |s|
    ensures forall i {:trigger r[i]} :: 0 <= i < |s| ==> r[i] == LowerChar(s[i])
  {
    seq(|s|, i requires 0 <= i < |s| => LowerChar(s[i]))
  }

  lemma LowerAppend(a: string, b: string)
    ensures Lower(a + b) == Lower(a) + Lower(b)
  {
    assert Lower(a + b) == Lower(a) + Lower(b);
  }

  predicate StartsWith(s: string, prefix: string) {
    |prefix| <= |s| && s[..|prefix|] == prefix
  }

  /** A lower-cased path starts with the lower-cased directory it was built from. */
  lemma LowerPrefix(dir: string, rest: string)
    ensures StartsWith(Lower(dir + rest), Lower(dir))
  {
    LowerAppend(dir, rest);
    assert (Lower(dir) + Lower(rest))[..|Lower(dir)|] == Lower(dir);
  }

  /** A drive letter and colon lead the path ("C:..."); a leading separator rules a drive out. */
  predicate HasDrive(p: string) {
    |p| >= 2 && !IsSep(p[0]) && p[1] == ':'
  }

  /** Two leading separators: a UNC name ("\\\\server\\share..."), which carries its own drive. */
  predicate IsUnc(p: string) {
    |p| >= 2 && IsSep(p[0]) && IsSep(p[1])
  }

  /**
    * `ntpath.isabs`: after an optional drive, the path starts at a root
    * separator ("C:\\x", "\\x", "/x", "\\\\server\\share").
    */
  predicate IsAbs(p: string) {
    (|p| >= 1 && IsSep(p[0])) || (HasDrive(p) && |p| >= 3 && IsSep(p[2]))
  }

  /** `path` followed by `name`, with a backslash in between unless `path` is empty or ends in a separator. */
  function AppendPart(path: string, name: string): string {
    if path == [] || IsSep(path[|path| - 1]) then path + name else path + "\\" + name
  }

  /**
    * Two-argument `ntpath.join` for drive-letter paths. A UNC name, a name
    * with a root and a drive, and a name on another drive replace `dir`. A
    * rooted name without a drive keeps the drive of `dir`. A name on the
    * same drive without a root, and a plain relative name, follow the part
    * of `dir` after its drive.
    */
  function Join(dir: string, name: string): string {
    if IsUnc(name) then name
    else if HasDrive(name) then
      if IsAbs(name) || !HasDrive(dir) || Lower(name[..2]) != Lower(dir[..2]) then name
      else name[..2] + AppendPart(dir[2..], name[2..])
    else if IsAbs(name) then (if HasDrive(dir) then dir[..2] + name else name)
    else if HasDrive(dir) then dir[..2] + AppendPart(dir[2..], name)
    else AppendPart(dir, name)
  }

  /** A relative name without a drive joined to a directory lands below that directory. */
  lemma JoinBelow(dir: string, name: string)
    requires !IsAbs(name) && !HasDrive(name)
    ensures Join(dir, name) == dir + name || Join(dir, name) == dir + "\\" + name
    ensures StartsWith(Lower(Join(dir, name)), Lower(dir))
  {
    var j := Join(dir, name);
    if HasDrive(dir) {
      var drive, rest := dir[..2], dir[2..];
      assert drive + rest == dir;
      assert j == drive + AppendPart(rest, name);
      if rest == [] || IsSep(rest[|rest| - 1]) {
        assert drive + (rest + name) == (drive + rest) + name;
      } else {
        assert drive + (rest + "\\" + name) == (drive + rest) + "\\" + name;
      }
    } else {
      assert j == AppendPart(dir, name);
    }
    if j == dir + name {
      LowerPrefix(dir, name);
    } else {
      assert j == dir + ("\\" + name);
      LowerPrefix(dir, "\\" + name);
    }
  }


  /** Index of the last separator of `s`, or -1. */
  function LastSep(s: string): (r: int)
    ensures -1 <= r < |s|
    ensures r >= 0 ==> IsSep(s[r])
    ensures forall k :: r < k < |s| ==> !IsSep(s[k])
  {
    if s == [] then -1
    else if IsSep(s[|s| - 1]) then |s| - 1
    else LastSep(s[..|s| - 1])
  }

  /** Index of the last '.' of `s`, or -1. */
  function LastDot(s: string): (r: int)
    ensures -1 <= r < |s|
    ensures r >= 0 ==> s[r] == '.'
    ensures forall k :: r < k < |s| ==> s[k] != '.'
  {
    if s == [] then -1
    else if s[|s| - 1] == '.' then |s| - 1
    else LastDot(s[..|s| - 1])
  }

  /** Where the last component of `p` starts: after the last separator, else after a drive. */
  function NameStart(p: string): (r: nat)
    ensures r <= |p|
    ensures forall k :: r <= k < |p| ==> !IsSep(p[k])
  {
    var i := LastSep(p);
    if i >= 0 then i + 1 else if HasDrive(p) then 2 else 0
  }

  /**
    * `ntpath.basename`: what follows the last separator, or what follows the
    * drive when there is no separator.
    */
  function Basename(p: string): (r: string)
    ensures forall k :: 0 <= k < |r| ==> !IsSep(r[k])
  {
    p[NameStart(p)..]
  }

  /**
    * The base name is a suffix of `p`, and the longest one without a
    * separator, except that a drive with no separator after it is dropped.
    */
  lemma BasenameSuffix(p: string)
    ensures var r := Basename(p);
      && |r| <= |p| && p[|p| - |r|..] == r
      && (|r| < |p| ==>
            IsSep(p[|p| - |r| - 1])
            || (|p| - |r| == 2 && HasDrive(p) && forall k :: 0 <= k < |p| ==> !IsSep(p[k])))
  {
    var i := LastSep(p);
    if i >= 0 {
      assert |p| - |Basename(p)| - 1 == i;
    }
  }

  /** A base name is never an absolute path. */
  lemma BasenameRelative(p: string)
    ensures !IsAbs(Basename(p))
  {
    var b := Basename(p);
    if |b| >= 1 {
      assert !IsSep(b[0]);
    }
    if |b| >= 3 {
      assert !IsSep(b[2]);
    }
  }

  /**
    * `ntpath.splitext` (`genericpath._splitext` on the whole path, with both
    * separators): the extension runs from the last dot after the last
    * separator to the end, unless only dots lie between that separator and
    * that dot. A drive is not skipped: "C:.ttf" splits as ("C:", ".ttf").
    */
  function SplitExt(p: string): (r: (string, string))
    ensures r.0 + r.1 == p
    ensures r.1 != [] ==> && r.1[0] == '.' && |r.0| == LastDot(p) && LastSep(p) < |r.0|
                          && exists k :: LastSep(p) < k < |r.0| && p[k] != '.'
    ensures forall k :: 0 < k < |r.1| ==> r.1[k] != '.' && !IsSep(r.1[k])
    ensures r.1 == [] ==> forall k :: LastSep(p) < k < |p| && p[k] == '.' ==>
                            forall j :: LastSep(p) < j < k ==> p[j] == '.'
  {
    var start := LastSep(p) + 1;
    var dot := LastDot(p);
    if dot >= start && exists k | start <= k < dot :: p[k] != '.' then (p[..dot], p[dot..])
    else (p, [])
  }

  /** Characters `str.strip()` removes: Python's `str.isspace()`. */
  predicate IsSpace(c: char) {
    var n := c as int;
    (9 <= n <= 13) || (28 <= n <= 32) || n == 0x85 || n == 0xA0 || n == 0x1680
    || (0x2000 <= n <= 0x200A) || n == 0x2028 || n == 0x2029 || n == 0x202F
    || n == 0x205F || n == 0x3000
  }

  function TrimStart(s: string): (r: string)
    ensures |r| <= |s| && s[|s| - |r|..] == r
    ensures r == [] || !IsSpace(r[0])
    ensures forall k :: 0 <= k < |s| - |r| ==> IsSpace(s[k])
  {
    if s != [] && IsSpace(s[0]) then TrimStart(s[1..]) else s
  }

  function TrimEnd(s: string): (r: string)
    ensures |r| <= |s| && s[..|r|] == r
    ensures r == [] || !IsSpace(r[|r| - 1])
    ensures forall k :: |r| <= k < |s| ==> IsSpace(s[k])
  {
    if s != [] && IsSpace(s[|s| - 1]) then TrimEnd(s[..|s| - 1]) else s
  }

  /** `r` is the slice of `s` at `i`, and only whitespace lies around it. */
  predicate TrimmedAt(s: string, r: string, i: int) {
    0 <= i <= |s| - |r| && s[i..i + |r|] == r
    && (forall k :: 0 <= k < i ==> IsSpace(s[k])) && (forall k :: i + |r| <= k < |s| ==> IsSpace(s[k]))
  }

  /** `str.strip()`: the slice of `s` left once its leading and trailing whitespace is removed. */
  function Strip(s: string): (r: string)
    ensures Unpadded(r)
    ensures exists i :: TrimmedAt(s, r, i)
  {
    StripSlice(s);
    TrimEnd(TrimStart(s))
  }

  /** Trimming the end of what trimming the start left is a slice of `s` surrounded by whitespace. */
  lemma StripSlice(s: string)
    ensures Unpadded(TrimEnd(TrimStart(s)))
    ensures TrimmedAt(s, TrimEnd(TrimStart(s)), |s| - |TrimStart(s)|)
  {
    var t := TrimStart(s);
    TrimmedBetween(s, t, TrimEnd(t));
  }

  /**
    * When `t` is a suffix of `s` after whitespace only and starting with no
    * whitespace, and `r` a prefix of `t` before whitespace only and ending
    * with no whitespace, `r` is the unpadded slice of `s` between them.
    */
  lemma TrimmedBetween(s: string, t: string, r: string)
    requires |t| <= |s| && s[|s| - |t|..] == t
    requires t == [] || !IsSpace(t[0])
    requires forall k :: 0 <= k < |s| - |t| ==> IsSpace(s[k])
    requires |r| <= |t| && t[..|r|] == r
    requires r == [] || !IsSpace(r[|r| - 1])
    requires forall k :: |r| <= k < |t| ==> IsSpace(t[k])
    ensures Unpadded(r)
    ensures TrimmedAt(s, r, |s| - |t|)
  {
    var i := |s| - |t|;
    if r != [] {
      assert r[0] == t[0];
    }
    assert s[i..i + |r|] == t[..|r|];
    forall k | i + |r| <= k < |s| ensures IsSpace(s[k]) {
      assert s[k] == t[k - i];
    }
  }

  /** A string without surrounding whitespace. */
  predicate Unpadded(s: string) {
    s == [] || (!IsSpace(s[0]) && !IsSpace(s[|s| - 1]))
  }

  lemma StripUnpadded(s: string)
    requires Unpadded(s)
    ensures Strip(s) == s
  {
  }

  /** Stripping twice is stripping once. */
  lemma StripIdempotent(s: string)
    ensures Strip(Strip(s)) == Strip(s)
  {
    StripUnpadded(Strip(s));
  }

  /** `t` occurs in `s` starting at index `k`. */
  predicate OccursAt(s: string, t: string, k: int) {
    0 <= k && k + |t| <= |s| && s[k..k + |t|] == t
  }

  /** First occurrence of `t` in `s` at or after `i`. */
  function FindFrom(s: string, t: string, i: nat): (r: Option<nat>)
    decreases |s| - i
    ensures r.Some? ==> i <= r.value && OccursAt(s, t, r.value)
    ensures r.Some? ==> forall k :: i <= k < r.value ==> !OccursAt(s, t, k)
    ensures r.None? ==> forall k :: i <= k ==> !OccursAt(s, t, k)
  {
    if i + |t| > |s| then None
    else if s[i..i + |t|] == t then Some(i)
    else FindFrom(s, t, i + 1)
  }

  /** `str.find`: index of the first occurrence of `t` in `s`. */
  function IndexOf(s: string, t: string): Option<nat> {
    FindFrom(s, t, 0)
  }

  /** Python's `t in s` on strings. */
  predicate Contains(s: string, t: string) {
    IndexOf(s, t).Some?
  }

  lemma ContainsIff(s: string, t: string)
    ensures Contains(s, t) <==> exists k :: OccursAt(s, t, k)
  {
    if exists k :: OccursAt(s, t, k) {
      var k :| OccursAt(s, t, k);
      assert k >= 0;
    }
  }

  /** `s.split(sep)[0]`: the text before the first occurrence of `sep`; `split` refuses an empty `sep`. */
  function BeforeFirst(s: string, sep: string): (r: string)
    requires sep != []
    ensures |r| <= |s| && s[..|r|] == r
  {
    match IndexOf(s, sep)
    case Some(i) => s[..i]
    case None => s
  }
}
