/** Shared vocabulary: bytes, little-endian integers, Option/Result, and the
    few string helpers (.NET ordinal comparisons, splitting) the core relies on. */
module Common {

  /** A byte as the .NET `byte` type holds it. */
  type Byte = b: int | 0 <= b < 256

  /** A UTF-16 code unit, the element of a .NET `string`. */
  type CodeUnit = u: int | 0 <= u < 0x1_0000

  datatype Option<T> = None | Some(value: T)

  datatype Result<T, E> = Ok(value: T) | Err(error: E)

  // ---------------------------------------------------------------------
  // Little-endian unsigned and two's-complement integers

  function Pow256(width: nat): (p: nat)
    ensures p >= 1
  {
    if width == 0 then 1 else 256 * Pow256(width - 1)
  }

  /** The `width` bytes of `u`, least significant first. */
  function ToLE(u: nat, width: nat): (bs: seq<Byte>)
    ensures |bs| == width
  {
    if width == 0 then [] else [u % 256] + ToLE(u / 256, width - 1)
  }

  /** The unsigned value of little-endian bytes. */
  function FromLE(bs: seq<Byte>): (u: nat)
    ensures u < Pow256(|bs|)
  {
    if bs == [] then 0 else bs[0] + 256 * FromLE(bs[1..])
  }

  /** The unsigned value of big-endian bytes. */
  function FromBE(bs: seq<Byte>): (u: nat)
    ensures u < Pow256(|bs|)
  {
    if bs == [] then 0 else FromBE(bs[..|bs| - 1]) * 256 + bs[|bs| - 1]
  }

  function Reverse<T>(s: seq<T>): (r: seq<T>)
    ensures |r| == |s|
    ensures forall k :: 0 <= k < |s| ==> r[k] == s[|s| - 1 - k]
  {
    if s == [] then [] else Reverse(s[1..]) + [s[0]]
  }

  /** Decoding what `ToLE` encodes gives the value back, for every value that fits. */
  lemma {:induction false} FromToLE(u: nat, width: nat)
    requires u < Pow256(width)
    ensures FromLE(ToLE(u, width)) == u
  {
    if width > 0 {
      FromToLE(u / 256, width - 1);
      assert ToLE(u, width)[1..] == ToLE(u / 256, width - 1);
    }
  }

  /** Big-endian decoding of reversed bytes is little-endian decoding. */
  lemma {:induction false} FromBEReverse(bs: seq<Byte>)
    ensures FromBE(Reverse(bs)) == FromLE(bs)
  {
    if bs != [] {
      var r := Reverse(bs);
      assert r[..|r| - 1] == Reverse(bs[1..]);
      FromBEReverse(bs[1..]);
    }
  }

  /** Two's-complement value of an unsigned `bits`-wide pattern. */
  function Signed(u: nat, width: nat): (n: int)
    requires width >= 1 && u < Pow256(width)
    ensures -(Pow256(width) as int) / 2 <= n < Pow256(width) / 2
    ensures n >= 0 <==> u < Pow256(width) / 2
  {
    if u < Pow256(width) / 2 then u else u - Pow256(width)
  }

  /** The unsigned pattern of a value that fits `width` bytes as two's complement. */
  function Unsigned(n: int, width: nat): (u: nat)
    requires -(Pow256(width) as int) / 2 <= n < Pow256(width) / 2
    ensures u < Pow256(width)
  {
    if n >= 0 then n else n + Pow256(width)
  }

  lemma Pow256Even(width: nat)
    requires width >= 1
    ensures Pow256(width) == 2 * (Pow256(width) / 2)
  {
    assert Pow256(width) == 256 * Pow256(width - 1);
  }

  lemma SignedUnsigned(n: int, width: nat)
    requires width >= 1 && -(Pow256(width) as int) / 2 <= n < Pow256(width) / 2
    ensures Signed(Unsigned(n, width), width) == n
  {
    Pow256Even(width);
  }

  const Int32Min: int := -0x8000_0000
  const Int32Max: int := 0x7FFF_FFFF
  const Int64Min: int := -0x8000_0000_0000_0000
  const Int64Max: int := 0x7FFF_FFFF_FFFF_FFFF

  lemma Pow256Values()
    ensures Pow256(2) == 0x1_0000
    ensures Pow256(4) == 0x1_0000_0000
    ensures Pow256(8) == 0x1_0000_0000_0000_0000
  {
    assert Pow256(1) == 256;
    assert Pow256(3) == 0x100_0000;
    assert Pow256(5) == 0x100_0000_0000;
    assert Pow256(6) == 0x1_0000_0000_0000;
    assert Pow256(7) == 0x100_0000_0000_0000;
  }

  // ---------------------------------------------------------------------
  // Strings

  /** ASCII upper-casing of one character; other characters are unchanged. */
  function UpperAscii(c: char): char
  {
    if 'a' <= c <= 'z' then (c as int - 32) as char else c
  }

  /** `string.Equals(a, b, StringComparison.OrdinalIgnoreCase)`, restricted to
      ASCII case folding. */
  predicate EqualsIgnoreCase(a: string, b: string)
  {
    |a| == |b| && forall k :: 0 <= k < |a| ==> UpperAscii(a[k]) == UpperAscii(b[k])
  }

  predicate IsPrefix(p: string, s: string)
  {
    |p| <= |s| && s[..|p|] == p
  }

  /** The position of the first `c` in `s`, if any. */
  function IndexOf(s: string, c: char): (r: Option<nat>)
    ensures r.Some? ==> r.value < |s| && s[r.value] == c && c !in s[..r.value]
    ensures r.None? ==> c !in s
  {
    if s == [] then None
    else if s[0] == c then Some(0)
    else match IndexOf(s[1..], c)
      case None => None
      case Some(k) => Some(k + 1)
  }

  /** `s.Split(c)`: the maximal `c`-free pieces, empty ones included. */
  function Split(s: string, c: char): (parts: seq<string>)
    ensures |parts| >= 1
    ensures forall k :: 0 <= k < |parts| ==> c !in parts[k]
    decreases |s|
  {
    match IndexOf(s, c)
    case None => [s]
    case Some(k) => [s[..k]] + Split(s[k + 1..], c)
  }

  /** `string.Join(sep, parts)`. */
  function Join(parts: seq<string>, sep: string): (s: string)
  {
    if parts == [] then []
    else if |parts| == 1 then parts[0]
    else parts[0] + sep + Join(parts[1..], sep)
  }

  function Last<T>(s: seq<T>): T
    requires |s| >= 1
  {
    s[|s| - 1]
  }

  /** `Math.Min` on naturals. */
  function Min(a: nat, b: nat): (m: nat)
    ensures m <= a && m <= b && (m == a || m == b)
  {
    if a <= b then a else b
  }

  /** `char.IsWhiteSpace` on the ASCII and Latin-1 white-space characters. */
  predicate IsWhiteSpace(c: char)
  {
    c == ' ' || ('\t' <= c <= '\r') || c == '\U{85}' || c == '\U{A0}'
  }

  /** The index of the first character at or after `i` that is not white
      space, or `|s|`. */
  function FirstNonSpace(s: string, i: nat): (n: nat)
    requires i <= |s|
    ensures i <= n <= |s| && (n < |s| ==> !IsWhiteSpace(s[n]))
    ensures forall k :: i <= k < n ==> IsWhiteSpace(s[k])
    decreases |s| - i
  {
    if i < |s| && IsWhiteSpace(s[i]) then FirstNonSpace(s, i + 1) else i
  }

  /** The end of the text before `j` once trailing white space is dropped. */
  function EndNonSpace(s: string, j: nat): (n: nat)
    requires j <= |s|
    ensures n <= j && (n > 0 ==> !IsWhiteSpace(s[n - 1]))
    ensures forall k :: n <= k < j ==> IsWhiteSpace(s[k])
  {
    if j > 0 && IsWhiteSpace(s[j - 1]) then EndNonSpace(s, j - 1) else j
  }

  /** `TrimStart()`: the suffix left once the leading white space is gone. */
  function TrimStart(s: string): (r: string)
    ensures |r| <= |s| && r == s[|s| - |r|..]
    ensures r == [] || !IsWhiteSpace(r[0])
    ensures forall k :: 0 <= k < |s| - |r| ==> IsWhiteSpace(s[k])
  {
    s[FirstNonSpace(s, 0)..]
  }

  /** `TrimEnd()`: the prefix left once the trailing white space is gone. */
  function TrimEnd(s: string): (r: string)
    ensures |r| <= |s| && r == s[..|r|]
    ensures r == [] || !IsWhiteSpace(Last(r))
    ensures forall k :: |r| <= k < |s| ==> IsWhiteSpace(s[k])
  {
    s[..EndNonSpace(s, |s|)]
  }

  /** `Trim()`. */
  function Trim(s: string): string
  {
    TrimEnd(TrimStart(s))
  }

  /** `Trim` keeps a contiguous piece of the text, drops only white space
      around it, and leaves none at either end. */
  lemma TrimKeepsMiddle(s: string)
    ensures var r := Trim(s); var i := |s| - |TrimStart(s)|;
      i + |r| <= |s| && r == s[i..i + |r|]
      && (forall k :: 0 <= k < i ==> IsWhiteSpace(s[k]))
      && (forall k :: i + |r| <= k < |s| ==> IsWhiteSpace(s[k]))
      && (r == [] || (!IsWhiteSpace(r[0]) && !IsWhiteSpace(Last(r))))
  {
    TrimSlice(s);
    TrimTrailing(s);
    TrimFirst(s);
  }

  lemma TrimSlice(s: string)
    ensures var i := |s| - |TrimStart(s)|; Trim(s) == s[i..i + |Trim(s)|]
  {
    var t := TrimStart(s);
    PrefixOfSuffix(s, t, TrimEnd(t));
  }

  /** A prefix one element longer. */
  lemma PrefixSnoc<T>(s: seq<T>, i: nat)
    requires i < |s|
    ensures s[..i + 1] == s[..i] + [s[i]]
  {
  }

  lemma PrefixOfSuffix<T>(s: seq<T>, t: seq<T>, r: seq<T>)
    requires |t| <= |s| && t == s[|s| - |t|..] && |r| <= |t| && r == t[..|r|]
    ensures r == s[|s| - |t|..|s| - |t| + |r|]
  {
  }

  lemma TrimTrailing(s: string)
    ensures var i := |s| - |TrimStart(s)|;
            forall k :: i + |Trim(s)| <= k < |s| ==> IsWhiteSpace(s[k])
  {
    var t := TrimStart(s);
    var i := |s| - |t|;
    forall k | i + |TrimEnd(t)| <= k < |s|
      ensures IsWhiteSpace(s[k])
    {
      assert s[k] == t[k - i];
    }
  }

  lemma TrimFirst(s: string)
    ensures Trim(s) == [] || !IsWhiteSpace(Trim(s)[0])
  {
    var t := TrimStart(s);
    var r := TrimEnd(t);
    if r != [] { assert r[0] == t[0]; }
  }

  /** Trimming twice is trimming once. */
  lemma TrimIdempotent(s: string)
    ensures Trim(Trim(s)) == Trim(s)
  {
    var r := Trim(s);
    TrimKeepsMiddle(s);
    assert TrimStart(r) == r;
    assert TrimEnd(r) == r;
  }

  /** Text with no white space at either end is its own trim. */
  lemma TrimUntouched(s: string)
    requires s == [] || (!IsWhiteSpace(s[0]) && !IsWhiteSpace(Last(s)))
    ensures Trim(s) == s
  {
  }

  /** `Guid.ToString("N")`: 32 lower-case hexadecimal digits. */
  predicate GuidDigits(g: string)
  {
    |g| == 32 && forall k :: 0 <= k < 32 ==> ('0' <= g[k] <= '9' || 'a' <= g[k] <= 'f')
  }

  /** A pipe name made of a prefix and a fresh GUID survives `Trim()`. */
  lemma PipeNameTrimmed(prefix: string, guid: string)
    requires prefix != [] && !IsWhiteSpace(prefix[0]) && GuidDigits(guid)
    ensures Trim(prefix + guid) == prefix + guid && IsPrefix(prefix, prefix + guid)
  {
    var name := prefix + guid;
    assert name[0] == prefix[0] && Last(name) == guid[31];
    TrimUntouched(name);
    assert name[..|prefix|] == prefix;
  }

  /** The argument guard both helper programs share: exactly `--pipe` (in any
      ASCII case) and a pipe name starting with `prefix`, ordinally. */
  predicate PipeArguments(args: seq<string>, prefix: string)
  {
    |args| == 2 && EqualsIgnoreCase(args[0], "--pipe") && IsPrefix(prefix, args[1])
  }

  // ---------------------------------------------------------------------
  // Windows paths

  predicate IsSeparator(c: char)
  {
    c == '\\' || c == '/'
  }

  /** `Path.IsPathRooted`: a leading separator or a drive letter. */
  predicate IsRooted(p: string)
  {
    (|p| >= 1 && IsSeparator(p[0])) || (|p| >= 2 && p[1] == ':')
  }

  /** `Path.Combine(a, b)`: `b` alone when it is rooted or `a` is empty, `a`
      when `b` is empty, otherwise the two joined by one separator unless one
      of them already supplies it. */
  function Combine(a: string, b: string): (p: string)
    ensures !IsRooted(b) && a != [] && b != [] ==> |p| >= |a| + |b| && a == p[..|a|] && b == p[|p| - |b|..]
  {
    if b == [] then a
    else if a == [] || IsRooted(b) then b
    else if IsSeparator(Last(a)) then a + b
    else a + "\\" + b
  }

  /** `Path.GetFileName`: what follows the last separator. */
  function FileName(p: string): (n: string)
    ensures |n| <= |p|
  {
    if p == [] || IsSeparator(Last(p)) then [] else FileName(p[..|p| - 1]) + [Last(p)]
  }

  /** The file name of a file combined into a directory is that file's name. */
  lemma FileNameOfCombine(dir: string, name: string)
    requires name != [] && !IsRooted(name) && forall k :: 0 <= k < |name| ==> !IsSeparator(name[k])
    ensures FileName(Combine(dir, name)) == name
  {
    if dir == [] {
      assert name == [] + name;
      FileNameAfter([], name);
    } else if IsSeparator(Last(dir)) {
      FileNameAfter(dir, name);
    } else {
      assert dir + "\\" + name == (dir + "\\") + name;
      FileNameAfter(dir + "\\", name);
    }
  }

  /** A separator-free tail, preceded by a separator or nothing, is the file name. */
  lemma {:induction false} FileNameAfter(prefix: string, name: string)
    requires prefix == [] || IsSeparator(Last(prefix))
    requires forall k :: 0 <= k < |name| ==> !IsSeparator(name[k])
    ensures FileName(prefix + name) == name
  {
    if name == [] {
      assert prefix + name == prefix;
    } else {
      var m := name[..|name| - 1];
      var p := prefix + name;
      assert Last(p) == Last(name);
      assert p[..|p| - 1] == prefix + m;
      FileNameAfter(prefix, m);
      assert name == m + [Last(name)];
    }
  }

  /** The file name is a separator-free tail of the path, preceded by a
      separator unless it is the whole path. */
  lemma {:induction false} FileNameIsTail(p: string)
    ensures var n := FileName(p);
            n == p[|p| - |n|..] && (forall k :: 0 <= k < |n| ==> !IsSeparator(n[k]))
            && (|n| < |p| ==> IsSeparator(p[|p| - |n| - 1]))
  {
    if p != [] && !IsSeparator(Last(p)) {
      var q := p[..|p| - 1];
      FileNameIsTail(q);
      var m := FileName(q);
      assert FileName(p) == m + [Last(p)];
      assert p[|p| - |m| - 1..] == q[|q| - |m|..] + [Last(p)];
      if |m| < |q| {
        assert p[|p| - |m| - 2] == q[|q| - |m| - 1];
      }
    }
  }
}
