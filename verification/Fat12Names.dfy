/** Which file names fat12_format_filename tells apart. */
module Fat12Names {
  import opened Bytes
  import opened Fat12Volume

  function Base(name: seq<byte>): seq<byte> {
    name[..DotAt(name)]
  }

  function Extension(name: seq<byte>): seq<byte> {
    if DotAt(name) < |name| then name[DotAt(name) + 1..] else []
  }

  function Uppers(s: seq<byte>): (r: seq<byte>)
    ensures |r| == |s|
    ensures forall i :: 0 <= i < |s| ==> r[i] == Upper(s[i])
  {
    seq(|s|, i requires 0 <= i < |s| => Upper(s[i]))
  }

  /** At most eight characters, at most three after the first dot, and no space. */
  predicate Short(name: seq<byte>) {
    |Base(name)| <= 8 && |Extension(name)| <= 3 && 0x20 !in name
  }

  /** The field of `n` bytes that holds `s`. */
  predicate Field(f: seq<byte>, s: seq<byte>) {
    |s| <= |f| && (forall i :: 0 <= i < |s| ==> f[i] == Upper(s[i])) && forall i :: |s| <= i < |f| ==> f[i] == 0x20
  }

  /** The formatted name is the base in eight bytes and the extension in three, upper case, padded. */
  lemma FormatFields(name: seq<byte>)
    requires Short(name)
    ensures Field(FormatName(name)[..8], Base(name)) && Field(FormatName(name)[8..], Extension(name))
  {
    var raw := RawName(name);
    assert raw[..8] == Padded(Base(name), 8) && raw[8..] == Padded(Extension(name), 3);
    assert FormatName(name)[..8] == Uppers(raw[..8]) && FormatName(name)[8..] == Uppers(raw[8..]);
  }

  lemma SameField(f: seq<byte>, s: seq<byte>, t: seq<byte>)
    requires Field(f, s) && 0x20 !in s && 0x20 !in t
    ensures Field(f, t) <==> Uppers(s) == Uppers(t)
  {
    if Field(f, t) {
      if |s| < |t| { NotSpace(t, |s|); }
      if |t| < |s| { NotSpace(s, |t|); }
    }
    if Uppers(s) == Uppers(t) {
      assert forall i :: 0 <= i < |t| ==> Uppers(s)[i] == Uppers(t)[i];
    }
  }

  lemma NotSpace(s: seq<byte>, i: nat)
    requires i < |s| && 0x20 !in s
    ensures Upper(s[i]) != 0x20
  {
    assert s[i] in s;
  }

  lemma FieldUnique(f: seq<byte>, g: seq<byte>, s: seq<byte>)
    requires |f| == |g| && Field(f, s)
    ensures Field(g, s) <==> f == g
  {
  }

  lemma NoSpaces(name: seq<byte>)
    requires Short(name)
    ensures 0x20 !in Base(name) && 0x20 !in Extension(name)
  {
  }

  /** Two short names without spaces share an 8.3 name exactly when their parts before and after the first
      dot agree up to case. */
  lemma SameName(n: seq<byte>, m: seq<byte>)
    requires Short(n) && Short(m)
    ensures FormatName(n) == FormatName(m)
            <==> Uppers(Base(n)) == Uppers(Base(m)) && Uppers(Extension(n)) == Uppers(Extension(m))
  {
    hide *;
    FormatFields(n);
    FormatFields(m);
    NoSpaces(n);
    NoSpaces(m);
    var f, g := FormatName(n), FormatName(m);
    SameParts(f, g);
    SameField(g[..8], Base(m), Base(n));
    SameField(g[8..], Extension(m), Extension(n));
    FieldUnique(f[..8], g[..8], Base(n));
    FieldUnique(f[8..], g[8..], Extension(n));
  }

  lemma SameParts(f: seq<byte>, g: seq<byte>)
    requires |f| == 11 && |g| == 11
    ensures f == g <==> f[..8] == g[..8] && f[8..] == g[8..]
  {
    assert f == f[..8] + f[8..] && g == g[..8] + g[8..];
  }

  /** A letter in upper case, any other byte as it is. */
  function InCapitals(c: byte): byte {
    if 0x61 <= c <= 0x7A then c - 0x20 else c
  }

  /** Byte `i` of the formatted name when the first dot, if any, is at `dot`: the first eight characters
      before it and the first three behind it, in capitals, and spaces. */
  function FormattedByte(name: seq<byte>, dot: nat, i: nat): byte {
    if i < 8 then (if i < dot && i < |name| then InCapitals(name[i]) else 0x20)
    else if dot + i - 7 < |name| then InCapitals(name[dot + i - 7]) else 0x20
  }

  /** The eleven bytes, one by one, for every name. None is a small letter. */
  lemma FormattedBytes(name: seq<byte>, dot: nat)
    requires dot <= |name| && (dot < |name| ==> name[dot] == 0x2E) && forall j :: 0 <= j < dot ==> name[j] != 0x2E
    ensures forall i :: 0 <= i < 11 ==> FormatName(name)[i] == FormattedByte(name, dot, i)
    ensures forall i :: 0 <= i < 11 ==> !(0x61 <= FormatName(name)[i] <= 0x7A)
  {
    assert DotAt(name) == dot;
    forall i | 0 <= i < 11
      ensures FormatName(name)[i] == FormattedByte(name, dot, i) && !(0x61 <= FormatName(name)[i] <= 0x7A)
    {
      RawByte(name, dot, i);
      hide RawName, DotAt;
    }
  }

  lemma RawParts(name: seq<byte>, dot: nat)
    requires DotAt(name) == dot
    ensures RawName(name) == Padded(name[..dot], 8) + Padded(if dot < |name| then name[dot + 1..] else [], 3)
  {
    hide DotAt, Padded;
  }

  lemma RawByte(name: seq<byte>, dot: nat, i: nat)
    requires dot <= |name| && DotAt(name) == dot && i < 11
    ensures i < 8 ==> RawName(name)[i] == if i < dot then name[i] else 0x20
    ensures i >= 8 ==> RawName(name)[i] == if dot + i - 7 < |name| then name[dot + i - 7] else 0x20
  {
    hide *;
    RawParts(name, dot);
    var base, extension := name[..dot], if dot < |name| then name[dot + 1..] else [];
    BytesOf(Padded(base, 8), Padded(extension, 3), i);
    if i < 8 {
      PaddedByte(base, 8, i);
    } else {
      PaddedByte(extension, 3, i - 8);
    }
  }

  lemma BytesOf(front: seq<byte>, back: seq<byte>, i: nat)
    requires i < |front| + |back|
    ensures (front + back)[i] == if i < |front| then front[i] else back[i - |front|]
  {
  }

  lemma PaddedByte(s: seq<byte>, n: nat, i: nat)
    requires i < n
    ensures Padded(s, n)[i] == if i < |s| then s[i] else 0x20
  {
  }

  /** "a.txt" and "A.TXT" are one file. */
  lemma CaseFolds()
    ensures FormatName([0x61, 0x2E, 0x74, 0x78, 0x74]) == FormatName([0x41, 0x2E, 0x54, 0x58, 0x54])
  {
    var n, m: seq<byte> := [0x61, 0x2E, 0x74, 0x78, 0x74], [0x41, 0x2E, 0x54, 0x58, 0x54];
    FormattedBytes(n, 1);
    FormattedBytes(m, 1);
    hide FormatName;
    SameBytes(n, m);
  }

  lemma SameBytes(n: seq<byte>, m: seq<byte>)
    requires n == [0x61, 0x2E, 0x74, 0x78, 0x74] && m == [0x41, 0x2E, 0x54, 0x58, 0x54]
    ensures forall i :: 0 <= i < 11 ==> FormattedByte(n, 1, i) == FormattedByte(m, 1, i)
  {
    forall i | 0 <= i < 11
      ensures FormattedByte(n, 1, i) == FormattedByte(m, 1, i)
    {
      hide *;
      SameByte(n, m, i);
    }
  }

  lemma SameByte(n: seq<byte>, m: seq<byte>, i: nat)
    requires n == [0x61, 0x2E, 0x74, 0x78, 0x74] && m == [0x41, 0x2E, 0x54, 0x58, 0x54] && i < 11
    ensures FormattedByte(n, 1, i) == FormattedByte(m, 1, i)
  {
    assert n[0] == 0x61 && n[2] == 0x74 && n[3] == 0x78 && n[4] == 0x74;
    assert m[0] == 0x41 && m[2] == 0x54 && m[3] == 0x58 && m[4] == 0x54;
  }
}
