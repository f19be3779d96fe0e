/**
  Simplified models of the helpers of Node's `path` module and of the string
  operations the image-list generator applies to paths.  A path is a string
  whose segments are separated by the host separator `sep` (`/` on POSIX
  hosts, `\` on Windows hosts); no normalisation of `.`/`..` segments or of
  repeated separators is modelled.
*/
module Paths {
  import opened Wrappers

  /** `path.join(dir, name)` for a plain entry name: one separator in between. */
  function Join(dir: string, name: string, sep: char): (p: string)
    ensures |p| == |dir| + 1 + |name|
    ensures dir + [sep] <= p && p[|dir| + 1..] == name
  {
    dir + [sep] + name
  }

  /** `p` is `base` itself or lies somewhere below it. */
  predicate Within(base: string, p: string, sep: char) {
    p == base || base + [sep] <= p
  }

  /**
    `path.relative(base, p)` for a `p` that lies under `base`: the part of `p`
    after `base` and its separator, and the empty string for `base` itself.
  */
  function Relative(base: string, p: string, sep: char): (rel: string)
    requires Within(base, p, sep)
    ensures p == base ==> rel == ""
    ensures p != base ==> p == base + [sep] + rel
  {
    if p == base then "" else p[|base| + 1..]
  }

  lemma JoinRelative(base: string, rel: string, sep: char)
    ensures Within(base, Join(base, rel, sep), sep)
    ensures Relative(base, Join(base, rel, sep), sep) == rel
  {
  }

  /** Joining an entry name to a directory under `base` stays under `base`. */
  lemma {:induction false} JoinWithin(base: string, dir: string, name: string, sep: char)
    requires Within(base, dir, sep)
    ensures Within(base, Join(dir, name, sep), sep)
    ensures Within(dir, Join(dir, name, sep), sep)
    ensures Relative(base, Join(dir, name, sep), sep)
            == if dir == base then name else Relative(base, dir, sep) + [sep] + name
  {
    var p := Join(dir, name, sep);
    if dir != base {
      assert dir == base + [sep] + Relative(base, dir, sep);
      assert p == base + [sep] + (Relative(base, dir, sep) + [sep] + name);
    }
  }

  lemma {:induction false} WithinTransitive(a: string, b: string, c: string, sep: char)
    requires Within(a, b, sep) && Within(b, c, sep)
    ensures Within(a, c, sep)
  {
    if b != a && c != b {
      assert a + [sep] <= b + [sep];
      assert (b + [sep])[..|a| + 1] == a + [sep];
      assert c[..|a| + 1] == (b + [sep])[..|a| + 1];
    }
  }

  /** The character `c` with `\` turned into `/`. */
  function SlashChar(c: char): char {
    if c == '\\' then '/' else c
  }

  /** `s.replace(/\\/g, '/')`: every backslash replaced by a forward slash. */
  function ToPosix(s: string): (r: string)
    ensures |r| == |s|
    ensures forall i :: 0 <= i < |s| ==> r[i] == SlashChar(s[i])
    ensures '\\' !in r
  {
    if s == [] then [] else [SlashChar(s[0])] + ToPosix(s[1..])
  }

  /** The reference partner of ToPosix on paths of host `sep`: `/` back to `sep`. */
  function FromPosix(s: string, sep: char): (r: string)
    ensures |r| == |s|
    ensures forall i :: 0 <= i < |s| ==> r[i] == (if s[i] == '/' then sep else s[i])
  {
    if s == [] then [] else [if s[0] == '/' then sep else s[0]] + FromPosix(s[1..], sep)
  }

  /** The only slash-like character in `s`, if any, is the host separator. */
  predicate OnlySeparator(s: string, sep: char) {
    forall i :: 0 <= i < |s| ==> (s[i] == '/' || s[i] == '\\') ==> s[i] == sep
  }

  lemma OnlySeparatorConcat(a: string, b: string, sep: char)
    requires OnlySeparator(a, sep) && OnlySeparator(b, sep)
    ensures OnlySeparator(a + b, sep)
  {
    forall i | 0 <= i < |a + b| ensures ((a + b)[i] == '/' || (a + b)[i] == '\\') ==> (a + b)[i] == sep {
      if i >= |a| { assert (a + b)[i] == b[i - |a|]; }
    }
  }

  /** ToPosix loses nothing on a path whose only separator is the host's. */
  lemma {:induction false} FromPosixToPosix(s: string, sep: char)
    requires OnlySeparator(s, sep)
    ensures FromPosix(ToPosix(s), sep) == s
  {
    var r := FromPosix(ToPosix(s), sep);
    forall i | 0 <= i < |s| ensures r[i] == s[i] {
      assert ToPosix(s)[i] == SlashChar(s[i]);
    }
  }

  lemma ToPosixInjective(s: string, t: string, sep: char)
    requires OnlySeparator(s, sep) && OnlySeparator(t, sep)
    requires ToPosix(s) == ToPosix(t)
    ensures s == t
  {
    FromPosixToPosix(s, sep);
    FromPosixToPosix(t, sep);
  }

  /** ASCII lower-casing of one character. */
  function LowerChar(c: char): char {
    if 'A' <= c <= 'Z' then (c as int + 32) as char else c
  }

  /** `s.toLowerCase()` restricted to ASCII letters. */
  function ToLowerAscii(s: string): (r: string)
    ensures |r| == |s|
    ensures forall i :: 0 <= i < |s| ==> r[i] == LowerChar(s[i])
  {
    if s == [] then [] else [LowerChar(s[0])] + ToLowerAscii(s[1..])
  }

  /** The index of the last `.` among the first `n` characters of `s`. */
  function LastDotBefore(s: string, n: nat): (r: Option<nat>)
    requires n <= |s|
    ensures r.None? <==> '.' !in s[..n]
    ensures r.Some? ==> r.value < n && s[r.value] == '.' && '.' !in s[r.value + 1..n]
  {
    if n == 0 then None
    else if s[n - 1] == '.' then Some(n - 1)
    else
      var r := LastDotBefore(s, n - 1);
      assert s[..n] == s[..n - 1] + [s[n - 1]];
      r
  }

  /** The index of the last `.` in `s`. */
  function LastDot(s: string): (r: Option<nat>)
    ensures r.None? <==> '.' !in s
    ensures r.Some? ==> r.value < |s| && s[r.value] == '.' && '.' !in s[r.value + 1..]
  {
    assert s[..|s|] == s;
    LastDotBefore(s, |s|)
  }

  /**
    `path.extname(name)` for an entry name (no separators in it): the suffix
    from the last `.`, except that a name with no `.`, a name whose only `.`
    is its first character (`.png`) and the name `..` have no extension.
  */
  function ExtName(name: string): string {
    match LastDot(name)
    case None => ""
    case Some(d) => if d == 0 || name == ".." then "" else name[d..]
  }

  /** ExtName gives a suffix starting at the last `.`, and the empty string exactly in the three cases above. */
  lemma ExtNameMeaning(name: string)
    ensures var ext := ExtName(name);
      && (ext == "" <==> ('.' !in name || name == ".." || (name[0] == '.' && '.' !in name[1..])))
      && (ext != "" ==> 0 < |name| - |ext| && ext == name[|name| - |ext|..])
      && (ext != "" ==> ext[0] == '.' && '.' !in ext[1..])
  {
  }

  /** A non-empty extension starts at a `.` after the first character, with no `.` after it. */
  lemma ExtNameStart(name: string) returns (k: nat)
    requires ToLowerAscii(ExtName(name)) != ""
    ensures 0 < k < |name| && name[k] == '.' && '.' !in name[k + 1..] && ExtName(name) == name[k..]
  {
    k := LastDot(name).value;
  }

  /** The suffix from the last `.` is the extension, for a name other than `..`. */
  lemma ExtNameAt(name: string, k: int)
    requires 0 < k < |name| && name[k] == '.' && '.' !in name[k + 1..] && name != ".."
    ensures ExtName(name) == name[k..]
  {
    assert LastDot(name) == Some(k);
  }

  /** Lower-casing moves no `.`, so the last `.` stays where it was. */
  lemma {:induction false} LastDotBeforeLower(s: string, n: nat)
    requires n <= |s|
    ensures LastDotBefore(ToLowerAscii(s), n) == LastDotBefore(s, n)
  {
    if n > 0 {
      assert ToLowerAscii(s)[n - 1] == LowerChar(s[n - 1]);
      LastDotBeforeLower(s, n - 1);
    }
  }

  lemma LastDotLower(name: string)
    ensures LastDot(ToLowerAscii(name)) == LastDot(name)
  {
    LastDotBeforeLower(name, |name|);
    assert ToLowerAscii(name)[..|name|] == ToLowerAscii(name) && name[..|name|] == name;
  }

  lemma DotDotLower(name: string)
    ensures ToLowerAscii(name) == ".." <==> name == ".."
  {
    if ToLowerAscii(name) == ".." {
      assert LowerChar(name[0]) == '.' && LowerChar(name[1]) == '.';
    }
  }

  lemma LowerSuffix(s: string, d: nat)
    requires d <= |s|
    ensures ToLowerAscii(s)[d..] == ToLowerAscii(s[d..])
  {
  }

  /** Taking the extension and lower-casing commute. */
  lemma ExtNameLower(name: string)
    ensures ExtName(ToLowerAscii(name)) == ToLowerAscii(ExtName(name))
  {
    LastDotLower(name);
    DotDotLower(name);
    match LastDot(name)
    case None =>
    case Some(d) =>
      LowerSuffix(name, d);
  }
}
