/** `OfflineRegistryKey`: one key of a registry hive opened through offreg,
    its path, the byte format its values are written and read in, the two
    enumeration loops and the handle it releases on disposal. */
module OfflineRegistry {
  import opened Common

  // ---------------------------------------------------------------------
  // Key paths

  /** The path of subkey `name` of the key at `path`. */
  function SubKeyPath(path: string, name: string): (p: string)
    ensures path == [] ==> p == name
    ensures path != [] ==> p == path + "\\" + name
  {
    if path == [] then name else path + "\\" + name
  }

  /** `Name`: the last backslash-separated segment of the path. */
  function KeyName(path: string): (n: string)
    ensures '\\' !in n
  {
    Last(Split(path, '\\'))
  }

  /** The first `c` of `a + [c] + t` is `a`'s if it has one. */
  lemma FirstInHead(a: string, c: char, t: string)
    requires c in a
    ensures IndexOf(a + [c] + t, c) == IndexOf(a, c)
  {
    var s := a + [c] + t;
    var j :| 0 <= j < |a| && a[j] == c;
    assert s[j] == c;
    var k := IndexOf(s, c).value;
    assert k <= j;
    assert s[..k] == a[..k];
    var i := IndexOf(a, c).value;
  }

  /** Splitting at a separator placed after a separator-free `a`. */
  lemma SplitAfter(a: string, c: char, t: string)
    requires c !in a
    ensures Split(a + [c] + t, c) == [a] + Split(t, c)
  {
    var s := a + [c] + t;
    assert s[|a|] == c;
    var k := IndexOf(s, c).value;
    assert s[..k] == a && s[k + 1..] == t;
  }

  lemma LastCons(x: string, pieces: seq<string>)
    requires |pieces| >= 1
    ensures Last([x] + pieces) == Last(pieces)
  {
  }

  /** The last piece of `a + [c] + t` is the last piece of `t`. */
  lemma {:induction false} LastPieceAfter(a: string, c: char, t: string)
    ensures Last(Split(a + [c] + t, c)) == Last(Split(t, c))
    decreases |a|
  {
    var s := a + [c] + t;
    if c in a {
      FirstInHead(a, c, t);
      var k := IndexOf(a, c).value;
      assert Split(s, c) == [s[..k]] + Split(s[k + 1..], c);
      assert s[k + 1..] == a[k + 1..] + [c] + t;
      LastPieceAfter(a[k + 1..], c, t);
      LastCons(s[..k], Split(s[k + 1..], c));
    } else {
      SplitAfter(a, c, t);
      LastCons(a, Split(t, c));
    }
  }

  /** A subkey opened or created by `name` is named `name`, when `name` is a
      single segment. */
  lemma NameOfSubKey(path: string, name: string)
    requires '\\' !in name
    ensures KeyName(SubKeyPath(path, name)) == name
  {
    if path != [] {
      LastPieceAfter(path, '\\', name);
    }
  }

  /** Splitting at a separator placed between `a` and `t` splits each. */
  lemma {:induction false} SplitJoin(a: string, c: char, t: string)
    ensures Split(a + [c] + t, c) == Split(a, c) + Split(t, c)
    decreases |a|
  {
    if c in a {
      var k := IndexOf(a, c).value;
      SplitJoin(a[k + 1..], c, t);
      SplitJoinStep(a, c, t, k);
    } else {
      SplitAfter(a, c, t);
      assert Split(a, c) == [a];
    }
  }

  /** The step of `SplitJoin` past the first separator of `a`. */
  lemma SplitJoinStep(a: string, c: char, t: string, k: nat)
    requires IndexOf(a, c) == Some(k)
    requires Split(a[k + 1..] + [c] + t, c) == Split(a[k + 1..], c) + Split(t, c)
    ensures Split(a + [c] + t, c) == Split(a, c) + Split(t, c)
  {
    FirstInHead(a, c, t);
    SlicesAround(a, c, t, k);
    SplitAtFirst(a + [c] + t, c, k);
    SplitAtFirst(a, c, k);
    ConcatAssociative([a[..k]], Split(a[k + 1..], c), Split(t, c));
  }

  lemma SplitAtFirst(s: string, c: char, k: nat)
    requires IndexOf(s, c) == Some(k)
    ensures Split(s, c) == [s[..k]] + Split(s[k + 1..], c)
  {
  }

  lemma SlicesAround(a: string, c: char, t: string, k: nat)
    requires k < |a|
    ensures (a + [c] + t)[..k] == a[..k] && (a + [c] + t)[k + 1..] == a[k + 1..] + [c] + t
  {
  }

  lemma ConcatAssociative<T>(x: seq<T>, y: seq<T>, z: seq<T>)
    ensures x + (y + z) == (x + y) + z
  {
  }

  /** The segments of a subkey's path are its parent's followed by the new
      name, for a single-segment name; below the root (empty path) the name
      is the only segment. */
  lemma SubKeyPathSegments(path: string, name: string)
    requires '\\' !in name
    ensures path == [] ==> Split(SubKeyPath(path, name), '\\') == [name]
    ensures path != [] ==> Split(SubKeyPath(path, name), '\\') == Split(path, '\\') + [name]
  {
    if path != [] {
      SplitJoin(path, '\\', name);
    }
  }

  // ---------------------------------------------------------------------
  // UTF-16 (`Encoding.Unicode`, `Marshal.PtrToStringUni`)

  /** The UTF-16 code units of one character: itself below U+10000, else a
      surrogate pair. */
  function CharUnits(c: char): (us: seq<CodeUnit>)
    ensures 1 <= |us| <= 2
    ensures 0 in us <==> c == '\0'
  {
    if (c as int) < 0x1_0000 then [c as int]
    else
      var v := c as int - 0x1_0000;
      [0xD800 + v / 0x400, 0xDC00 + v % 0x400]
  }

  /** The UTF-16 code units of a string. */
  function Units(s: string): (us: seq<CodeUnit>)
    ensures '\0' !in s ==> 0 !in us
    ensures |s| <= |us|
  {
    if s == [] then [] else CharUnits(s[0]) + Units(s[1..])
  }

  /** The character a lone surrogate decodes to. */
  const ReplacementChar: char := '�'

  /** Code units read back as a string: surrogate pairs combine, anything
      else stands for itself. */
  function DecodeUnits(us: seq<CodeUnit>): (s: string)
    ensures |s| <= |us|
    decreases |us|
  {
    if us == [] then []
    else if 0xD800 <= us[0] < 0xDC00 && |us| >= 2 && 0xDC00 <= us[1] < 0xE000 then
      var hi: int := us[0] - 0xD800;
      var lo: int := us[1] - 0xDC00;
      [(0x1_0000 + hi * 0x400 + lo) as char] + DecodeUnits(us[2..])
    else if 0xD800 <= us[0] < 0xE000 then [ReplacementChar] + DecodeUnits(us[1..])
    else [us[0] as char] + DecodeUnits(us[1..])
  }

  lemma DecodeChar(c: char, rest: seq<CodeUnit>)
    ensures DecodeUnits(CharUnits(c) + rest) == [c] + DecodeUnits(rest)
  {
    var us := CharUnits(c) + rest;
    if (c as int) < 0x1_0000 {
      assert us[1..] == rest;
    } else {
      var v := c as int - 0x1_0000;
      assert v == (v / 0x400) * 0x400 + v % 0x400;
      assert us[2..] == rest;
    }
  }

  /** Decoding the units of a string gives the string back. */
  lemma {:induction false} DecodeUnitsOfString(s: string)
    ensures DecodeUnits(Units(s)) == s
  {
    if s != [] {
      DecodeUnitsOfString(s[1..]);
      DecodeChar(s[0], Units(s[1..]));
    }
  }

  /** Code units as little-endian byte pairs. */
  function UnitBytes(us: seq<CodeUnit>): (bs: seq<Byte>)
    ensures |bs| == 2 * |us|
  {
    if us == [] then [] else [us[0] % 256, us[0] / 256] + UnitBytes(us[1..])
  }

  /** The whole code units in a byte buffer; an odd last byte is ignored. */
  function BytesUnits(bs: seq<Byte>): (us: seq<CodeUnit>)
    ensures |us| == |bs| / 2
  {
    if |bs| < 2 then [] else [bs[0] as int + 256 * bs[1] as int] + BytesUnits(bs[2..])
  }

  lemma {:induction false} BytesUnitsOfUnits(us: seq<CodeUnit>)
    ensures BytesUnits(UnitBytes(us)) == us
  {
    if us != [] {
      BytesUnitsOfUnits(us[1..]);
      assert UnitBytes(us)[2..] == UnitBytes(us[1..]);
    }
  }

  /** `Encoding.Unicode.GetBytes`. */
  function Utf16(s: string): (bs: seq<Byte>)
    ensures |bs| % 2 == 0 && 2 * |s| <= |bs|
  {
    UnitBytes(Units(s))
  }

  /** `Marshal.PtrToStringUni(ptr)`: the string up to the first NUL unit; a
      buffer without one would be read past its end. */
  function ReadNulTerminated(bs: seq<Byte>): (r: Option<string>)
    ensures r.Some? <==> 0 in BytesUnits(bs)
    ensures r.Some? ==> |r.value| < |bs| / 2
  {
    var us := BytesUnits(bs);
    if 0 in us then Some(DecodeUnits(us[..UnitIndex(us, 0)])) else None
  }

  /** The position of the first `u` in `us`. */
  function UnitIndex(us: seq<CodeUnit>, u: CodeUnit): (k: nat)
    requires u in us
    ensures k < |us| && us[k] == u && u !in us[..k]
  {
    if us[0] == u then 0
    else
      assert us == [us[0]] + us[1..];
      var k := UnitIndex(us[1..], u);
      assert us[..k + 1] == [us[0]] + us[1..][..k];
      k + 1
  }

  /** Data holding a NUL-free `a` and then a NUL reads back as `a`, whatever
      follows. */
  lemma ReadUpToNul(a: string, rest: string)
    requires '\0' !in a
    ensures ReadNulTerminated(Utf16(a + "\0" + rest)) == Some(a)
  {
    var us := Units(a) + [0] + Units(rest);
    TerminatedUnits(a, rest);
    FirstNulUnit(Units(a), Units(rest));
    assert DecodeUnits(Units(a)) == a by { DecodeUnitsOfString(a); }
  }

  lemma TerminatedUnits(a: string, rest: string)
    ensures BytesUnits(Utf16(a + "\0" + rest)) == Units(a) + [0] + Units(rest)
  {
    var us := Units(a) + [0] + Units(rest);
    assert Units("\0") == [0] by { assert "\0"[1..] == []; }
    assert Units(a + "\0") == Units(a) + [0] by { UnitsAppend(a, "\0"); }
    assert Units(a + "\0" + rest) == us by { UnitsAppend(a + "\0", rest); }
    assert BytesUnits(UnitBytes(us)) == us by { BytesUnitsOfUnits(us); }
  }

  lemma FirstNulUnit(head: seq<CodeUnit>, tail: seq<CodeUnit>)
    requires 0 !in head
    ensures 0 in head + [0] + tail
    ensures UnitIndex(head + [0] + tail, 0) == |head|
    ensures (head + [0] + tail)[..|head|] == head
  {
    var us := head + [0] + tail;
    assert us[|head|] == 0;
  }

  lemma {:induction false} UnitsAppend(a: string, b: string)
    ensures Units(a + b) == Units(a) + Units(b)
  {
    if a != [] {
      assert (a + b)[0] == a[0] && (a + b)[1..] == a[1..] + b;
      UnitsAppend(a[1..], b);
      assert Units(a + b) == CharUnits(a[0]) + Units(a[1..] + b);
      assert Units(a) == CharUnits(a[0]) + Units(a[1..]);
    } else {
      assert a + b == b;
    }
  }

  /** Writing `s` in full, then reading all its units back, gives `s`. */
  lemma Utf16RoundTrip(s: string)
    ensures DecodeUnits(BytesUnits(Utf16(s))) == s
  {
    BytesUnitsOfUnits(Units(s));
    DecodeUnitsOfString(s);
  }

  // ---------------------------------------------------------------------
  // Multi-strings

  /** `StringSplitOptions.RemoveEmptyEntries`: the non-empty parts, in order. */
  function NonEmpty(parts: seq<string>): (r: seq<string>)
    ensures |r| <= |parts|
    ensures forall k :: 0 <= k < |r| ==> r[k] != []
  {
    if parts == [] then []
    else (if parts[0] == [] then [] else [parts[0]]) + NonEmpty(parts[1..])
  }

  lemma NonEmptyCons(x: string, rest: seq<string>)
    ensures NonEmpty([x] + rest) == (if x == [] then [] else [x]) + NonEmpty(rest)
  {
    assert ([x] + rest)[1..] == rest;
  }

  /** The text a multi-string is stored as. */
  function MultiStringText(parts: seq<string>): (t: string)
  {
    Join(parts, "\0") + "\0\0"
  }

  /** The texts of no parts and of one part end in separators only. */
  lemma NulPieces()
    ensures NonEmpty(Split("\0", '\0')) == [] && NonEmpty(Split("\0\0", '\0')) == []
  {
    SplitAfter([], '\0', []);
    SplitAfter([], '\0', "\0");
    assert "\0\0" == [] + ['\0'] + "\0" && "\0" == [] + ['\0'] + [];
    NonEmptyCons([], [[]]);
    NonEmptyCons([], [[], []]);
  }

  /** The first part of the stored text, and what follows it. */
  lemma CutFirst(x: string, t: string)
    requires '\0' !in x
    ensures NonEmpty(Split(x + ['\0'] + t, '\0')) == NonEmpty([x]) + NonEmpty(Split(t, '\0'))
  {
    SplitAfter(x, '\0', t);
    NonEmptyCons(x, Split(t, '\0'));
    NonEmptyCons(x, []);
  }

  lemma MultiStringOne(x: string)
    requires '\0' !in x
    ensures NonEmpty(Split(MultiStringText([x]), '\0')) == NonEmpty([x])
  {
    assert MultiStringText([x]) == x + ['\0'] + "\0";
    CutFirst(x, "\0");
    NulPieces();
  }

  lemma MultiStringTextCons(parts: seq<string>)
    requires |parts| > 1
    ensures MultiStringText(parts) == parts[0] + ['\0'] + MultiStringText(parts[1..])
  {
  }

  lemma NonEmptyHead(parts: seq<string>)
    requires parts != []
    ensures NonEmpty(parts) == NonEmpty([parts[0]]) + NonEmpty(parts[1..])
  {
    NonEmptyCons(parts[0], []);
  }

  lemma MultiStringMore(parts: seq<string>)
    requires |parts| > 1 && '\0' !in parts[0]
    requires NonEmpty(Split(MultiStringText(parts[1..]), '\0')) == NonEmpty(parts[1..])
    ensures NonEmpty(Split(MultiStringText(parts), '\0')) == NonEmpty(parts)
  {
    MultiStringTextCons(parts);
    CutFirst(parts[0], MultiStringText(parts[1..]));
    NonEmptyHead(parts);
  }

  /** Splitting the stored text and dropping empty entries keeps exactly the
      non-empty parts, when no part holds a NUL. */
  lemma {:induction false} MultiStringParts(parts: seq<string>)
    requires forall k :: 0 <= k < |parts| ==> '\0' !in parts[k]
    ensures NonEmpty(Split(MultiStringText(parts), '\0')) == NonEmpty(parts)
  {
    if parts == [] {
      NulPieces();
    } else if |parts| == 1 {
      MultiStringOne(parts[0]);
      assert parts == [parts[0]];
    } else {
      MultiStringParts(parts[1..]);
      MultiStringMore(parts);
    }
  }

  lemma {:induction false} NonEmptyOfNonEmpty(parts: seq<string>)
    requires forall k :: 0 <= k < |parts| ==> parts[k] != []
    ensures NonEmpty(parts) == parts
  {
    if parts != [] {
      NonEmptyOfNonEmpty(parts[1..]);
    }
  }

  // ---------------------------------------------------------------------
  // Values

  /** `RegistryValueKind`. */
  datatype ValueKind = KindNone | Unknown | String | ExpandString | Binary | DWord | MultiString | QWord

  /** The kind's numeric value, as offreg receives it. */
  function KindCode(k: ValueKind): (code: int)
    ensures -1 <= code <= 11
  {
    match k
    case KindNone => -1
    case Unknown => 0
    case String => 1
    case ExpandString => 2
    case Binary => 3
    case DWord => 4
    case MultiString => 7
    case QWord => 11
  }

  lemma KindCodesDistinct(j: ValueKind, k: ValueKind)
    ensures KindCode(j) == KindCode(k) <==> j == k
  {
  }

  type Int32 = n: int | Int32Min <= n <= Int32Max
  type Int64 = n: int | Int64Min <= n <= Int64Max

  /** The .NET objects a value is set from or read back as. */
  datatype Value =
    | Null
    | Text(text: string)
    | Int32Value(int32: Int32)
    | Int64Value(int64: Int64)
    | ByteArray(bytes: seq<Byte>)
    | TextArray(texts: seq<string>)
    /** An object of any other type. */
    | OtherObject

  /** The exceptions of this class, and data whose parse would read past the
      end of the buffer. */
  datatype KeyError =
    | ObjectDisposed
    | InvalidCast
    | NullReference
    | ArgumentNull
    | UnsupportedKind(kind: ValueKind)
    /** `InvalidOperationException` for a failed native call. */
    | Failed(operation: string, code: int)
    | UnreadableData

  /** `InferValueKind`: the kind `SetValue` stores a value as when none is given. */
  function InferValueKind(v: Value): (k: ValueKind)
    ensures k in {String, DWord, QWord, Binary, MultiString}
  {
    match v
    case Text(_) => String
    case Int32Value(_) => DWord
    case Int64Value(_) => QWord
    case ByteArray(_) => Binary
    case TextArray(_) => MultiString
    case _ => Binary
  }

  /** `BitConverter.GetBytes(int)`: two's complement, little-endian. */
  function DWordBytes(n: Int32): (bs: seq<Byte>)
    ensures |bs| == 4
  {
    Pow256Values();
    ToLE(Unsigned(n, 4), 4)
  }

  /** `BitConverter.GetBytes(long)`. */
  function QWordBytes(n: Int64): (bs: seq<Byte>)
    ensures |bs| == 8
  {
    Pow256Values();
    ToLE(Unsigned(n, 8), 8)
  }

  /** `ConvertToRegistryData`: the bytes stored for `v` as kind `k`. A cast
      of the wrong type fails, and so do a `null` the kind cannot take and
      a kind it does not write. */
  function ConvertToRegistryData(v: Value, k: ValueKind): (r: Result<seq<Byte>, KeyError>)
    ensures r.Ok? && k == DWord ==> |r.value| == 4
    ensures r.Ok? && k == QWord ==> |r.value| == 8
    ensures r.Ok? && (k == String || k == MultiString) ==> |r.value| % 2 == 0 && |r.value| >= 2
  {
    match k
    case String =>
      if v.Text? then Ok(Utf16(v.text + "\0"))
      else if v.Null? then Ok(Utf16("\0"))
      else Err(InvalidCast)
    case DWord =>
      if v.Int32Value? then Ok(DWordBytes(v.int32))
      else if v.Null? then Err(NullReference)
      else Err(InvalidCast)
    case QWord =>
      if v.Int64Value? then Ok(QWordBytes(v.int64))
      else if v.Null? then Err(NullReference)
      else Err(InvalidCast)
    case Binary =>
      if v.ByteArray? then Ok(v.bytes)
      else if v.Null? then Err(NullReference)
      else Err(InvalidCast)
    case MultiString =>
      if v.TextArray? then Ok(Utf16(MultiStringText(v.texts)))
      else if v.Null? then Err(ArgumentNull)
      else Err(InvalidCast)
    case _ => Err(UnsupportedKind(k))
  }

  /** `ParseRegistryValue`: the object read back from data of native type
      `kind`; `None` where the read would run past the buffer. */
  function ParseRegistryValue(kind: int, data: seq<Byte>): (r: Option<Value>)
    ensures kind != 1 && kind != 4 && kind != 11 && kind != 7 ==> r == Some(ByteArray(data))
    ensures kind == 4 ==> (r.Some? <==> |data| >= 4)
    ensures kind == 11 ==> (r.Some? <==> |data| >= 8)
    ensures kind == 7 ==> r.Some? && r.value.TextArray?
  {
    Pow256Values();
    if kind == 1 then
      match ReadNulTerminated(data)
      case Some(s) => Some(Text(s))
      case None => None
    else if kind == 4 then
      if |data| >= 4 then Some(Int32Value(Signed(FromLE(data[..4]), 4))) else None
    else if kind == 11 then
      if |data| >= 8 then Some(Int64Value(Signed(FromLE(data[..8]), 8))) else None
    else if kind == 7 then
      Some(TextArray(NonEmpty(Split(DecodeUnits(BytesUnits(data)), '\0'))))
    else Some(ByteArray(data))
  }

  /** The kinds `ConvertToRegistryData` writes, and the values each takes. */
  lemma ConvertSucceeds(v: Value, k: ValueKind)
    ensures ConvertToRegistryData(v, k).Ok? <==>
              (k == String && (v.Text? || v.Null?)) || (k == DWord && v.Int32Value?)
              || (k == QWord && v.Int64Value?) || (k == Binary && v.ByteArray?)
              || (k == MultiString && v.TextArray?)
    ensures k !in {String, DWord, QWord, Binary, MultiString} ==>
              ConvertToRegistryData(v, k) == Err(UnsupportedKind(k))
  {
  }

  /** A value whose kind is inferred can be stored unless it is `null` or of
      another type: both are taken as `Binary` and are not byte arrays. */
  lemma InferredKindStores(v: Value)
    ensures ConvertToRegistryData(v, InferValueKind(v)).Ok? <==> !v.Null? && !v.OtherObject?
    ensures v.OtherObject? ==> ConvertToRegistryData(v, InferValueKind(v)) == Err(InvalidCast)
    ensures v.Null? ==> ConvertToRegistryData(v, InferValueKind(v)) == Err(NullReference)
  {
  }

  /** Values that read back as themselves: strings without NUL, and lists of
      non-empty strings without NUL. */
  predicate Storable(v: Value)
  {
    match v
    case Null => false
    case OtherObject => false
    case Text(s) => '\0' !in s
    case TextArray(xs) => forall k :: 0 <= k < |xs| ==> xs[k] != [] && '\0' !in xs[k]
    case _ => true
  }

  lemma TextReadsBack(s: string)
    requires '\0' !in s
    ensures ConvertToRegistryData(Text(s), String) == Ok(Utf16(s + "\0"))
    ensures ParseRegistryValue(1, Utf16(s + "\0")) == Some(Text(s))
  {
    assert s + "\0" == s + "\0" + [];
    ReadUpToNul(s, []);
  }

  lemma Int32ReadsBack(n: Int32)
    ensures ConvertToRegistryData(Int32Value(n), DWord) == Ok(DWordBytes(n))
    ensures ParseRegistryValue(4, DWordBytes(n)) == Some(Int32Value(n))
  {
    Pow256Values();
    var data := DWordBytes(n);
    FromToLE(Unsigned(n, 4), 4);
    SignedUnsigned(n, 4);
    assert data[..4] == data;
  }

  lemma Int64ReadsBack(n: Int64)
    ensures ConvertToRegistryData(Int64Value(n), QWord) == Ok(QWordBytes(n))
    ensures ParseRegistryValue(11, QWordBytes(n)) == Some(Int64Value(n))
  {
    Pow256Values();
    var data := QWordBytes(n);
    FromToLE(Unsigned(n, 8), 8);
    SignedUnsigned(n, 8);
    assert data[..8] == data;
  }

  lemma ReadMultiString(xs: seq<string>)
    requires forall k :: 0 <= k < |xs| ==> '\0' !in xs[k]
    ensures ParseRegistryValue(7, Utf16(MultiStringText(xs))) == Some(TextArray(NonEmpty(xs)))
  {
    var t := MultiStringText(xs);
    assert ParseRegistryValue(7, Utf16(t))
           == Some(TextArray(NonEmpty(Split(DecodeUnits(BytesUnits(Utf16(t))), '\0'))));
    assert DecodeUnits(BytesUnits(Utf16(t))) == t by { Utf16RoundTrip(t); }
    assert NonEmpty(Split(t, '\0')) == NonEmpty(xs) by { MultiStringParts(xs); }
  }

  /** Empty entries of a multi-string are dropped on the way back. */
  lemma TextArrayDropsEmpty(xs: seq<string>)
    requires forall k :: 0 <= k < |xs| ==> '\0' !in xs[k]
    ensures ConvertToRegistryData(TextArray(xs), MultiString) == Ok(Utf16(MultiStringText(xs)))
    ensures ParseRegistryValue(7, Utf16(MultiStringText(xs))) == Some(TextArray(NonEmpty(xs)))
  {
    ReadMultiString(xs);
    ConvertTextArray(xs);
  }

  lemma ConvertTextArray(xs: seq<string>)
    ensures ConvertToRegistryData(TextArray(xs), MultiString) == Ok(Utf16(MultiStringText(xs)))
  {
  }

  /** Storing a value under its inferred kind and parsing the stored bytes
      gives the value back. */
  lemma StoredValueReadsBack(v: Value)
    requires Storable(v)
    ensures var k := InferValueKind(v); var r := ConvertToRegistryData(v, k);
            r.Ok? && ParseRegistryValue(KindCode(k), r.value) == Some(v)
  {
    match v
    case Text(s) => TextReadsBack(s);
    case Int32Value(n) => Int32ReadsBack(n);
    case Int64Value(n) => Int64ReadsBack(n);
    case ByteArray(_) =>
    case TextArray(xs) =>
      TextArrayDropsEmpty(xs);
      NonEmptyOfNonEmpty(xs);
  }

  /** A string is read back only up to its first NUL. */
  lemma TextCutAtNul(a: string, b: string)
    requires '\0' !in a
    ensures var r := ConvertToRegistryData(Text(a + "\0" + b), String);
            r.Ok? && ParseRegistryValue(KindCode(String), r.value) == Some(Text(a))
  {
    var s := a + "\0" + b;
    assert s + "\0" == a + "\0" + (b + "\0");
    assert ReadNulTerminated(Utf16(s + "\0")) == Some(a) by { ReadUpToNul(a, b + "\0"); }
  }

  // ---------------------------------------------------------------------
  // Enumeration

  const ErrorNoMoreItems: int := 259
  const ErrorMoreData: int := 234

  /** One answer of `OREnumKey`/`OREnumValue`: a result code and, on
      success, the name at that index. */
  datatype EnumAnswer = EnumAnswer(code: int, name: string)

  /** `OREnumValue`'s answer at one index, and its answer to the retry with a
      larger buffer that follows `ERROR_MORE_DATA`. */
  datatype ValueAnswer = ValueAnswer(first: EnumAnswer, retry: EnumAnswer)

  /** Native answers for indices 0, 1, ...; every index past the end answers
      `ERROR_NO_MORE_ITEMS`. */
  function AnswerAt(answers: seq<EnumAnswer>, index: nat): EnumAnswer
  {
    if index < |answers| then answers[index] else EnumAnswer(ErrorNoMoreItems, [])
  }

  function ValueAnswerAt(answers: seq<ValueAnswer>, index: nat): ValueAnswer
  {
    if index < |answers| then answers[index]
    else ValueAnswer(EnumAnswer(ErrorNoMoreItems, []), EnumAnswer(ErrorNoMoreItems, []))
  }

  /** Names already collected in front of the rest of a listing. */
  function Prefixed(names: seq<string>, r: Result<seq<string>, int>): Result<seq<string>, int>
  {
    match r
    case Ok(rest) => Ok(names + rest)
    case Err(code) => Err(code)
  }

  /** The subkey names the answers list, or the first failure code. */
  function SubKeyListing(answers: seq<EnumAnswer>): (r: Result<seq<string>, int>)
    ensures r.Err? ==> r.error != 0 && r.error != ErrorNoMoreItems
  {
    if answers == [] || answers[0].code == ErrorNoMoreItems then Ok([])
    else if answers[0].code != 0 then Err(answers[0].code)
    else Prefixed([answers[0].name], SubKeyListing(answers[1..]))
  }

  /** The answer that decides an index of a value listing. */
  function Effective(a: ValueAnswer): EnumAnswer
  {
    if a.first.code == ErrorMoreData then a.retry else a.first
  }

  /** The value names the answers list, or the first failure code: a retry
      that answers `ERROR_NO_MORE_ITEMS` is a failure too. */
  function ValueListing(answers: seq<ValueAnswer>): (r: Result<seq<string>, int>)
    ensures r.Err? ==> r.error != 0
  {
    if answers == [] || answers[0].first.code == ErrorNoMoreItems then Ok([])
    else if Effective(answers[0]).code != 0 then Err(Effective(answers[0]).code)
    else Prefixed([Effective(answers[0]).name], ValueListing(answers[1..]))
  }

  /** A listing is the names of the successful answers before the first
      `ERROR_NO_MORE_ITEMS`, in index order, or fails with the first other
      code. */
  lemma {:induction false} SubKeyListingMeaning(answers: seq<EnumAnswer>)
    ensures var r := SubKeyListing(answers);
            r.Ok? ==>
              |r.value| <= |answers|
              && (forall k :: 0 <= k < |r.value| ==> answers[k].code == 0 && r.value[k] == answers[k].name)
              && (|r.value| < |answers| ==> answers[|r.value|].code == ErrorNoMoreItems)
    ensures var r := SubKeyListing(answers);
            r.Err? ==>
              exists n :: 0 <= n < |answers| && answers[n].code == r.error
                          && forall k :: 0 <= k < n ==> answers[k].code == 0
  {
    if answers != [] && answers[0].code == 0 {
      var rest := answers[1..];
      SubKeyListingMeaning(rest);
      var r := SubKeyListing(rest);
      if r.Err? {
        var n :| 0 <= n < |rest| && rest[n].code == r.error && forall k :: 0 <= k < n ==> rest[k].code == 0;
        assert answers[n + 1] == rest[n];
        assert forall k :: 0 <= k < n + 1 ==> answers[k].code == 0 by {
          forall k | 0 <= k < n + 1 ensures answers[k].code == 0 {
            if k > 0 { assert answers[k] == rest[k - 1]; }
          }
        }
      }
    }
  }

  /** The same for values, where an index answered `ERROR_MORE_DATA` is
      decided by its retry. */
  lemma {:induction false} ValueListingMeaning(answers: seq<ValueAnswer>)
    ensures var r := ValueListing(answers);
            r.Ok? ==>
              |r.value| <= |answers|
              && (forall k :: 0 <= k < |r.value| ==>
                    answers[k].first.code != ErrorNoMoreItems && Effective(answers[k]).code == 0
                    && r.value[k] == Effective(answers[k]).name)
              && (|r.value| < |answers| ==> answers[|r.value|].first.code == ErrorNoMoreItems)
    ensures var r := ValueListing(answers);
            r.Err? ==>
              exists n :: 0 <= n < |answers| && Effective(answers[n]).code == r.error
                          && answers[n].first.code != ErrorNoMoreItems
                          && forall k :: 0 <= k < n ==> Effective(answers[k]).code == 0
  {
    if answers != [] && answers[0].first.code != ErrorNoMoreItems && Effective(answers[0]).code == 0 {
      var rest := answers[1..];
      ValueListingMeaning(rest);
      var r := ValueListing(rest);
      if r.Err? {
        var n :| 0 <= n < |rest| && Effective(rest[n]).code == r.error && rest[n].first.code != ErrorNoMoreItems
                 && forall k :: 0 <= k < n ==> Effective(rest[k]).code == 0;
        assert answers[n + 1] == rest[n];
        assert forall k :: 0 <= k < n + 1 ==> Effective(answers[k]).code == 0 by {
          forall k | 0 <= k < n + 1 ensures Effective(answers[k]).code == 0 {
            if k > 0 { assert answers[k] == rest[k - 1]; }
          }
        }
      }
    }
  }

  /** A retry that finds no more items is reported as a failure, not as the
      end of the listing. */
  lemma RetryEndIsFailure(name: string, rest: seq<ValueAnswer>)
    ensures ValueListing([ValueAnswer(EnumAnswer(ErrorMoreData, name), EnumAnswer(ErrorNoMoreItems, []))] + rest)
            == Err(ErrorNoMoreItems)
  {
  }

  /** A listing reported as the caller sees it. */
  function Reported(r: Result<seq<string>, int>, operation: string): (q: Result<seq<string>, KeyError>)
    ensures r.Ok? <==> q.Ok?
    ensures r.Ok? ==> q.value == r.value
    ensures r.Err? ==> q.error == Failed(operation, r.error)
  {
    match r
    case Ok(names) => Ok(names)
    case Err(code) => Err(Failed(operation, code))
  }

  lemma PrefixedNothing(r: Result<seq<string>, int>)
    ensures Prefixed([], r) == r
  {
    if r.Ok? { assert [] + r.value == r.value; }
  }

  lemma PrefixedTwice(names: seq<string>, more: seq<string>, r: Result<seq<string>, int>)
    ensures Prefixed(names, Prefixed(more, r)) == Prefixed(names + more, r)
  {
    if r.Ok? { assert names + (more + r.value) == (names + more) + r.value; }
  }

  lemma SubKeyStep(answers: seq<EnumAnswer>, index: nat, names: seq<string>)
    requires index < |answers| && answers[index].code == 0
    ensures Prefixed(names, SubKeyListing(answers[index..]))
            == Prefixed(names + [answers[index].name], SubKeyListing(answers[index + 1..]))
  {
    assert answers[index..][0] == answers[index] && answers[index..][1..] == answers[index + 1..];
    PrefixedTwice(names, [answers[index].name], SubKeyListing(answers[index + 1..]));
  }

  lemma ValueStep(answers: seq<ValueAnswer>, index: nat, names: seq<string>)
    requires index < |answers| && answers[index].first.code != ErrorNoMoreItems
    requires Effective(answers[index]).code == 0
    ensures Prefixed(names, ValueListing(answers[index..]))
            == Prefixed(names + [Effective(answers[index]).name], ValueListing(answers[index + 1..]))
  {
    assert answers[index..][0] == answers[index] && answers[index..][1..] == answers[index + 1..];
    PrefixedTwice(names, [Effective(answers[index]).name], ValueListing(answers[index + 1..]));
  }

  // ---------------------------------------------------------------------
  // The key

  /** `SetValue`'s native request, and how the call ended. */
  datatype ValueWrite = ValueWrite(name: string, kind: int, data: seq<Byte>)
  datatype SetOutcome = SetOutcome(write: Option<ValueWrite>, fault: Option<KeyError>)

  class OfflineRegistryKey {
    var keyHandle: int
    const path: string
    const ownsHandle: bool
    var disposed: bool
    /** The handles passed to `ORCloseKey`, in order. */
    var closed: seq<int>

    /** A disposed key no longer holds a handle it owns. */
    ghost predicate Valid()
      reads this
    {
      disposed && ownsHandle ==> keyHandle == 0
    }

    constructor(keyHandle: int, path: string, ownsHandle: bool)
      ensures this.keyHandle == keyHandle && this.path == path && this.ownsHandle == ownsHandle
      ensures !disposed && closed == [] && Valid()
    {
      this.keyHandle := keyHandle;
      this.path := path;
      this.ownsHandle := ownsHandle;
      disposed := false;
      closed := [];
    }

    /** `OpenSubKey(name)`: `result` and `subKeyHandle` are `OROpenKey`'s. */
    method OpenSubKey(name: string, result: int, subKeyHandle: int)
      returns (r: Result<Option<OfflineRegistryKey>, KeyError>)
      ensures disposed ==> r == Err(ObjectDisposed)
      ensures !disposed && result != 0 ==> r == Ok(None)
      ensures !disposed && result == 0 ==>
                r.Ok? && r.value.Some? && fresh(r.value.value)
                && r.value.value.path == SubKeyPath(path, name) && r.value.value.keyHandle == subKeyHandle
                && r.value.value.ownsHandle && !r.value.value.disposed && r.value.value.Valid()
    {
      if disposed {
        return Err(ObjectDisposed);
      }
      if result != 0 {
        return Ok(None);
      }
      var key := new OfflineRegistryKey(subKeyHandle, SubKeyPath(path, name), true);
      return Ok(Some(key));
    }

    /** `CreateSubKey(name)`: `result` and `subKeyHandle` are `ORCreateKey`'s. */
    method CreateSubKey(name: string, result: int, subKeyHandle: int)
      returns (r: Result<OfflineRegistryKey, KeyError>)
      ensures disposed ==> r == Err(ObjectDisposed)
      ensures !disposed && result != 0 ==> r == Err(Failed("Create subkey", result))
      ensures !disposed && result == 0 ==>
                r.Ok? && fresh(r.value) && r.value.path == SubKeyPath(path, name)
                && r.value.keyHandle == subKeyHandle && r.value.ownsHandle && !r.value.disposed && r.value.Valid()
    {
      if disposed {
        return Err(ObjectDisposed);
      }
      if result != 0 {
        return Err(Failed("Create subkey", result));
      }
      var key := new OfflineRegistryKey(subKeyHandle, SubKeyPath(path, name), true);
      return Ok(key);
    }

    /** `GetSubKeyNames`: asks for index 0, 1, ... until `ERROR_NO_MORE_ITEMS`;
        `answers` are `OREnumKey`'s. */
    method GetSubKeyNames(answers: seq<EnumAnswer>) returns (r: Result<seq<string>, KeyError>)
      ensures disposed ==> r == Err(ObjectDisposed)
      ensures !disposed ==> r == Reported(SubKeyListing(answers), "Enumerate subkeys")
    {
      if disposed {
        return Err(ObjectDisposed);
      }
      var names: seq<string> := [];
      var index: nat := 0;
      assert answers[0..] == answers;
      PrefixedNothing(SubKeyListing(answers));
      while true
        invariant index <= |answers|
        invariant SubKeyListing(answers) == Prefixed(names, SubKeyListing(answers[index..]))
        decreases |answers| - index
      {
        var answer := AnswerAt(answers, index);
        if answer.code == ErrorNoMoreItems {
          break;
        }
        if answer.code != 0 {
          return Err(Failed("Enumerate subkeys", answer.code));
        }
        SubKeyStep(answers, index, names);
        names := names + [answer.name];
        index := index + 1;
      }
      assert names + [] == names;
      return Ok(names);
    }

    /** `GetValueNames`: as `GetSubKeyNames`, retrying an index once when the
        name did not fit. */
    method GetValueNames(answers: seq<ValueAnswer>) returns (r: Result<seq<string>, KeyError>)
      ensures disposed ==> r == Err(ObjectDisposed)
      ensures !disposed ==> r == Reported(ValueListing(answers), "Enumerate values")
    {
      if disposed {
        return Err(ObjectDisposed);
      }
      var names: seq<string> := [];
      var index: nat := 0;
      assert answers[0..] == answers;
      PrefixedNothing(ValueListing(answers));
      while true
        invariant index <= |answers|
        invariant ValueListing(answers) == Prefixed(names, ValueListing(answers[index..]))
        decreases |answers| - index
      {
        var answer := ValueAnswerAt(answers, index);
        var result := answer.first;
        if result.code == ErrorNoMoreItems {
          break;
        }
        if result.code == ErrorMoreData {
          result := answer.retry;
        }
        if result.code != 0 {
          return Err(Failed("Enumerate values", result.code));
        }
        ValueStep(answers, index, names);
        names := names + [result.name];
        index := index + 1;
      }
      assert names + [] == names;
      return Ok(names);
    }

    /** `GetValue(name, defaultValue)`: `sizeResult` and `readResult` are the
        codes of the two `ORGetValue` calls, `kind` and `data` what the second
        one returns. */
    function GetValue(sizeResult: int, readResult: int, kind: int, data: seq<Byte>, defaultValue: Value)
      : (r: Result<Value, KeyError>)
      reads this
      ensures disposed ==> r == Err(ObjectDisposed)
      ensures !disposed && (sizeResult != 0 || readResult != 0) ==> r == Ok(defaultValue)
      ensures !disposed && sizeResult == 0 && readResult == 0 ==>
                (r.Ok? <==> ParseRegistryValue(kind, data).Some?)
                && (r.Ok? ==> Some(r.value) == ParseRegistryValue(kind, data))
    {
      if disposed then Err(ObjectDisposed)
      else if sizeResult != 0 || readResult != 0 then Ok(defaultValue)
      else match ParseRegistryValue(kind, data)
        case Some(v) => Ok(v)
        case None => Err(UnreadableData)
    }

    /** `SetValue(name, value, valueKind)`: the kind is inferred when it is
        `Unknown`; `result` is `ORSetValue`'s code. */
    function SetValue(name: string, value: Value, valueKind: ValueKind, result: int): (r: SetOutcome)
      reads this
      ensures disposed ==> r == SetOutcome(None, Some(ObjectDisposed))
      ensures !disposed ==>
                var kind := if valueKind == Unknown then InferValueKind(value) else valueKind;
                match ConvertToRegistryData(value, kind)
                case Err(e) => r == SetOutcome(None, Some(e))
                case Ok(data) =>
                  r.write == Some(ValueWrite(name, KindCode(kind), data))
                  && (r.fault.None? <==> result == 0)
                  && (result != 0 ==> r.fault == Some(Failed("Set value", result)))
    {
      if disposed then SetOutcome(None, Some(ObjectDisposed))
      else
        var kind := if valueKind == Unknown then InferValueKind(value) else valueKind;
        match ConvertToRegistryData(value, kind)
        case Err(e) => SetOutcome(None, Some(e))
        case Ok(data) =>
          SetOutcome(Some(ValueWrite(name, KindCode(kind), data)),
                     if result == 0 then None else Some(Failed("Set value", result)))
    }

    /** `Dispose`: closes an owned, open handle the first time only. */
    method Dispose()
      requires Valid()
      modifies this
      ensures Valid() && disposed
      ensures old(disposed) ==> keyHandle == old(keyHandle) && closed == old(closed)
      ensures !old(disposed) && ownsHandle && old(keyHandle) != 0 ==>
                keyHandle == 0 && closed == old(closed) + [old(keyHandle)]
      ensures !old(disposed) && !(ownsHandle && old(keyHandle) != 0) ==>
                keyHandle == old(keyHandle) && closed == old(closed)
    {
      if !disposed {
        if ownsHandle && keyHandle != 0 {
          closed := closed + [keyHandle];
          keyHandle := 0;
        }
        disposed := true;
      }
    }
  }

  /** `SetValue` writes exactly when the key is open and the value has the
      type its kind (inferred when `Unknown`) takes; it succeeds exactly
      when it writes and `ORSetValue` returns 0. */
  lemma SetValueWrites(key: OfflineRegistryKey, name: string, v: Value, valueKind: ValueKind, result: int)
    ensures var k := if valueKind == Unknown then InferValueKind(v) else valueKind;
            var w := key.SetValue(name, v, valueKind, result);
            (w.write.Some? <==>
               !key.disposed
               && ((k == String && (v.Text? || v.Null?)) || (k == DWord && v.Int32Value?)
                   || (k == QWord && v.Int64Value?) || (k == Binary && v.ByteArray?)
                   || (k == MultiString && v.TextArray?)))
            && (w.fault.None? <==> w.write.Some? && result == 0)
  {
    ConvertSucceeds(v, if valueKind == Unknown then InferValueKind(v) else valueKind);
  }

  /** `GetValue` of an open key only fails when the data cannot be read: a
      String without a NUL unit, or a DWord or QWord too short. */
  lemma GetValueErrors(key: OfflineRegistryKey, sizeResult: int, readResult: int, kind: int, data: seq<Byte>,
                       defaultValue: Value)
    ensures var r := key.GetValue(sizeResult, readResult, kind, data, defaultValue);
            (r.Err? <==>
               key.disposed
               || (sizeResult == 0 && readResult == 0
                   && ((kind == 1 && 0 !in BytesUnits(data)) || (kind == 4 && |data| < 4)
                       || (kind == 11 && |data| < 8))))
            && (r.Err? && !key.disposed ==> r.error == UnreadableData)
  {
  }

  /** What `SetValue` writes for a storable value with no kind given, the
      offline store hands back to `GetValue`, as the value itself. */
  lemma SetThenGet(key: OfflineRegistryKey, name: string, v: Value, fallback: Value)
    requires !key.disposed && Storable(v)
    ensures var w := key.SetValue(name, v, Unknown, 0);
            w.fault.None? && w.write.Some? && w.write.value.name == name
            && key.GetValue(0, 0, w.write.value.kind, w.write.value.data, fallback) == Ok(v)
  {
    StoredValueReadsBack(v);
  }
}
