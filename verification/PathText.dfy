/** The lexical part of `ghc::filesystem::path` on POSIX, as functions of the stored string.

    A path is one flat string. Everything below reads positions in that string, the way
    the iterator of include/filesystem.h does; no list of components is ever stored.
 */
module PathText {

  const SEP: char := '/'

  // ------------------------------------------------------------------ searching

  /** `std::find(s + i, end, c)`. */
  function Find(s: string, c: char, i: nat): (k: nat)
    requires i <= |s|
    ensures i <= k <= |s|
    ensures forall j :: i <= j < k ==> s[j] != c
    ensures k < |s| ==> s[k] == c
    decreases |s| - i
  {
    if i == |s| || s[i] == c then i else Find(s, c, i + 1)
  }

  /** `std::find(reverse(s + i), reverse(begin), c).base()`: the start of the longest run
      without `c` that ends just before position `i`. */
  function FindBack(s: string, c: char, i: nat): (k: nat)
    requires i <= |s|
    ensures k <= i
    ensures forall j :: k <= j < i ==> s[j] != c
    ensures k > 0 ==> s[k - 1] == c
  {
    if i == 0 || s[i - 1] == c then i else FindBack(s, c, i - 1)
  }

  function SkipSeparators(s: string, i: nat): (k: nat)
    requires i <= |s|
    ensures i <= k <= |s|
    decreases |s| - i
  {
    if i < |s| && s[i] == SEP then SkipSeparators(s, i + 1) else i
  }

  predicate EndsWithSep(s: string) {
    s != "" && s[|s| - 1] == SEP
  }

  // ------------------------------------------------------------------ normalisation

  /** `std::unique` with "both are separators": one separator is kept out of every run. */
  function Unique(s: string): (r: string)
    ensures |r| <= |s|
  {
    if |s| < 2 then s
    else if s[0] == SEP && s[1] == SEP then Unique(s[1..])
    else [s[0]] + Unique(s[1..])
  }

  /** `postprocess_path_with_format`: exactly two leading separators before a name are kept. */
  function PostProcess(s: string): (r: string)
    ensures |r| <= |s|
  {
    if |s| > 2 && s[0] == SEP && s[1] == SEP && s[2] != SEP then s[..2] + Unique(s[2..]) else Unique(s)
  }

  // ------------------------------------------------------------------ decomposition and queries

  /** `std::isprint` in the "C" locale. */
  predicate IsPrint(c: char) {
    ' ' <= c <= '~'
  }

  function RootNameLength(s: string): (n: nat)
    ensures n <= |s|
  {
    if |s| > 2 && s[0] == SEP && s[1] == SEP && s[2] != SEP && IsPrint(s[2]) then Find(s, SEP, 3) else 0
  }

  function RootName(s: string): string {
    PostProcess(s[..RootNameLength(s)])
  }

  predicate HasRootDirectory(s: string) {
    RootNameLength(s) < |s| && s[RootNameLength(s)] == SEP
  }

  predicate IsAbsolute(s: string) {
    HasRootDirectory(s)
  }

  function RootPath(s: string): string {
    PostProcess(RootName(s) + (if HasRootDirectory(s) then [SEP] else ""))
  }

  function RootPathLength(s: string): (n: nat)
    ensures n <= |s|
  {
    RootNameLength(s) + if HasRootDirectory(s) then 1 else 0
  }

  predicate HasRelativePath(s: string) {
    RootPathLength(s) < |s|
  }

  /** The iterator's `_root`: the position of the root separator, or the end. */
  function RootPosition(s: string): nat {
    if HasRootDirectory(s) then RootNameLength(s) else |s|
  }

  // ------------------------------------------------------------------ the iterator

  /** `path::iterator::increment`: the end of the element that starts at `pos`. */
  function Increment(s: string, pos: nat): (i: nat)
    requires pos <= |s|
    ensures pos <= i <= |s|
    ensures pos < |s| ==> pos < i
  {
    if pos == |s| then pos
    else if s[pos] == SEP then
      var i := pos + 1;
      if i < |s| && s[i] == SEP then
        if pos == 0 && !(i + 1 < |s| && s[i + 1] == SEP) then Find(s, SEP, i + 1) else SkipSeparators(s, i)
      else i
    else if pos == 0 && pos + 1 < |s| && s[pos + 1] == ':' then pos + 2
    else Find(s, SEP, pos + 1)
  }

  /** The loop of `operator++` behind the call of `increment`. */
  function SkipToElement(s: string, i: nat): (k: nat)
    requires i <= |s|
    ensures i <= k <= |s|
    decreases |s| - i
  {
    if i < |s| && i != RootPosition(s) && s[i] == SEP && i + 1 != |s| then SkipToElement(s, i + 1) else i
  }

  /** `operator++`. */
  function Next(s: string, pos: nat): (k: nat)
    requires pos <= |s|
    ensures pos <= k <= |s|
    ensures pos < |s| ==> pos < k
  {
    SkipToElement(s, Increment(s, pos))
  }

  /** `path::iterator::decrement`, and so `operator--`. */
  function Decrement(s: string, pos: nat): (k: nat)
    requires pos <= |s|
    ensures k <= pos
    ensures pos > 0 ==> k < pos
  {
    if pos == 0 then 0
    else
      var i := pos - 1;
      if i != RootPosition(s) && (pos != |s| || s[i] != SEP) then
        var k := FindBack(s, SEP, i);
        if k == 2 && s[0] == SEP && s[1] == SEP then 0 else k
      else i
  }

  /** `updateCurrent`: what the iterator yields at `pos`. */
  function Current(s: string, pos: nat): (e: string)
    requires pos <= |s|
    ensures |e| <= |s| - pos
  {
    if pos == |s| || (pos != 0 && s[pos] == SEP && pos != RootPosition(s) && pos + 1 == |s|) then ""
    else PostProcess(s[pos..Increment(s, pos)])
  }

  /** What `for (e : p)` sees from position `pos` on. */
  function ElementsFrom(s: string, pos: nat): seq<string>
    requires pos <= |s|
    decreases |s| - pos
  {
    if pos == |s| then [] else [Current(s, pos)] + ElementsFrom(s, Next(s, pos))
  }

  function Elements(s: string): seq<string> {
    ElementsFrom(s, 0)
  }

  function Filename(s: string): (r: string)
    ensures |r| <= |s|
  {
    if !HasRelativePath(s) then "" else Current(s, Decrement(s, |s|))
  }

  predicate HasFilename(s: string) {
    HasRelativePath(s) && Filename(s) != ""
  }

  function ParentPath(s: string): string {
    if HasRelativePath(s) then
      var i := Decrement(s, |s|);
      if i > RootPathLength(s) && s[i] != SEP then PostProcess(s[..i - 1]) else PostProcess(s[..i])
    else s
  }

  function RemoveFilename(s: string): string {
    if HasFilename(s) then s[..|s| - |Filename(s)|] else s
  }

  // ------------------------------------------------------------------ comparison

  /** A byte that is negative as a `char`, which is signed on x86-64. */
  predicate IsHigh(c: char) {
    c as int > 127
  }

  /** `<` on `char`: bytes above 127 come before the others. */
  predicate CharBelow(a: char, b: char) {
    if IsHigh(a) == IsHigh(b) then a < b else IsHigh(a)
  }

  /** The loop of `path::compare` over the two strings behind their root paths. */
  function CompareTails(a: string, b: string): int {
    if a != "" && b != "" && a[0] == b[0] then CompareTails(a[1..], b[1..])
    else if a == "" then if b == "" then 0 else -1
    else if b == "" then 1
    else if a[0] == SEP then -1
    else if b[0] == SEP then 1
    else if CharBelow(a[0], b[0]) then -1 else 1
  }

  /** `basic_string::compare` as a sign; `char_traits` compares bytes without sign. */
  function CompareStrings(a: string, b: string): int {
    if a != "" && b != "" && a[0] == b[0] then CompareStrings(a[1..], b[1..])
    else if a == "" then if b == "" then 0 else -1
    else if b == "" then 1
    else if a[0] < b[0] then -1 else 1
  }

  /** `path::compare` (LWG_2936_BEHAVIOUR). The root name of `a` is compared with as much of
      the root name of `b` as is not longer than it. */
  function Compare(a: string, b: string): int {
    var n1, n2 := RootNameLength(a), RootNameLength(b);
    var rnc := CompareStrings(a[..n1], b[..if n1 < n2 then n1 else n2]);
    if rnc != 0 then rnc
    else if HasRootDirectory(a) != HasRootDirectory(b) then if HasRootDirectory(a) then 1 else -1
    else CompareTails(a[RootPathLength(a)..], b[RootPathLength(b)..])
  }

  predicate SamePath(a: string, b: string) {
    Compare(a, b) == 0
  }

  // ------------------------------------------------------------------ operator/=

  /** The element loop of `operator/=`. */
  function AppendElements(acc: string, p: string, pos: nat, first: bool): string
    requires pos <= |p|
    decreases |p| - pos
  {
    if pos == |p| then acc
    else
      var acc' := if !first && !EndsWithSep(acc) then acc + [SEP] else acc;
      AppendElements(acc' + Current(p, pos), p, Next(p, pos), false)
  }

  /** `s /= p`. */
  function AppendPath(s: string, p: string): string {
    if p == "" then
      if s != "" && s[|s| - 1] != SEP && s[|s| - 1] != ':' then s + [SEP] else s
    else if (IsAbsolute(p) && (s != RootName(s) || p != [SEP]))
            || (RootNameLength(p) > 0 && !SamePath(RootName(p), RootName(s))) then p
    else
      var s' := if HasRootDirectory(p) then RootName(s)
                else if (!HasRootDirectory(s) && IsAbsolute(s)) || HasFilename(s) then s + [SEP]
                else s;
      AppendElements(s', p, if RootNameLength(p) > 0 then Next(p, 0) else 0, true)
  }

  /** `s /= source` for a source that is not yet a path: the source is made one first. */
  function AppendSource(s: string, source: string): string {
    AppendPath(s, PostProcess(source))
  }

  // ------------------------------------------------------------------ lexically_normal, lexically_relative

  /** The loop state of `lexically_normal`. */
  datatype Normalising = Normalising(dest: string, lastDotDot: bool)

  /** One round of the loop of `lexically_normal`, for a path whose root path is `root`. */
  function NormalStep(st: Normalising, e: string, root: string): Normalising {
    if e == "." then st.(dest := AppendSource(st.dest, ""))
    else if e == ".." && st.dest != "" && SamePath(st.dest, root) then st
    else if e == ".." && st.dest != "" && !SamePath(Current(st.dest, Decrement(st.dest, |st.dest|)), "..") then
      var d := if EndsWithSep(st.dest) then st.dest[..|st.dest| - 1] else st.dest;
      st.(dest := RemoveFilename(d))
    else
      Normalising(if e == "" && st.lastDotDot then st.dest else AppendSource(st.dest, e), e == "..")
  }

  function NormalFold(st: Normalising, es: seq<string>, root: string): Normalising
    decreases |es|
  {
    if es == [] then st else NormalFold(NormalStep(st, es[0], root), es[1..], root)
  }

  function LexicallyNormal(s: string): string {
    var dest := NormalFold(Normalising("", false), Elements(s), RootPath(s)).dest;
    if dest == "" then "." else dest
  }

  /** How many leading elements two paths share. */
  function Mismatch(es: seq<string>, bs: seq<string>): (k: nat)
    ensures k <= |es| && k <= |bs|
  {
    if es != [] && bs != [] && SamePath(es[0], bs[0]) then 1 + Mismatch(es[1..], bs[1..]) else 0
  }

  /** Names minus `..` elements. */
  function Depth(bs: seq<string>): int {
    if bs == [] then 0
    else
      (if !SamePath(bs[0], ".") && !SamePath(bs[0], "") && !SamePath(bs[0], "..") then 1
       else if SamePath(bs[0], "..") then -1 else 0) + Depth(bs[1..])
  }

  /** `for (e : es) result /= e`. */
  function AppendAll(s: string, es: seq<string>): string
    decreases |es|
  {
    if es == [] then s else AppendAll(AppendPath(s, es[0]), es[1..])
  }

  function LexicallyRelative(s: string, base: string): string {
    if !SamePath(RootName(s), RootName(base)) || IsAbsolute(s) != IsAbsolute(base)
       || (!HasRootDirectory(s) && HasRootDirectory(base)) then ""
    else
      var es, bs := Elements(s), Elements(base);
      var k := Mismatch(es, bs);
      if k == |es| && k == |bs| then "."
      else
        var count := Depth(bs[k..]);
        if count < 0 then "" else AppendAll(AppendAll("", seq(count, _ => "..")), es[k..])
  }
}
