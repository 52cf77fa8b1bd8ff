/** The 60-byte member header: how its fields are filled and how
    _bfd_generic_read_ar_hdr_mag reads it back (binutils/bfd/archive.c). */
module ArHeader {
  import opened Octets

  const HDR: nat := 60
  const SARMAG: nat := 8
  const TWO32: nat := 0x1_0000_0000
  const TWO64: nat := 0x1_0000_0000_0000_0000
  const FMAG: Bytes := [BACKQUOTE, NEWLINE]

  datatype Error = NoMore | Malformed | WrongFormat | TooBig | FileTruncated
  datatype Result<+T> = Ok(value: T) | Err(error: Error)

  // ----- filling fields ------------------------------------------------------

  /** _bfd_ar_spacepad after formatting: cut to n, or padded with spaces. */
  function SpacePad(n: nat, text: Bytes): (r: Bytes)
    ensures |r| == n
  {
    if |text| < n then text + Repeat(SPACE, n - |text|) else text[..n]
  }

  /** _bfd_ar_sizepad: None is its "file too big" failure. */
  function SizePad(n: nat, size: nat): (r: Option<Bytes>)
    ensures r.Some? ==> |r.value| == n
  {
    if |Decimal(size)| > n then None else Some(SpacePad(n, Decimal(size)))
  }

  /** The whole struct ar_hdr; `misc` is date, uid, gid and mode. */
  function Image(name: Bytes, misc: Bytes, size: Bytes): (r: Bytes)
    requires |name| == 16 && |misc| == 32 && |size| == 10
    ensures |r| == HDR
    ensures r[..16] == name && r[48..58] == size && r[58..] == FMAG
  {
    name + misc + size + FMAG
  }

  /** A padded numeral scans back, and padding fails exactly for sizes that do
      not fit. */
  lemma SizePadReads(n: nat, size: nat)
    requires n >= 1
    ensures SizePad(n, size).Some? <==> size < Pow10(n)
    ensures SizePad(n, size).Some? ==> ScanNumber(SizePad(n, size).value) == Some(size)
  {
    DecimalLength(size, n);
    if size < Pow10(n) {
      SpacePadReads(n, size, []);
      assert SpacePad(n, Decimal(size)) + [] == SpacePad(n, Decimal(size));
    }
  }

  lemma SpacePadReads(n: nat, v: nat, rest: Bytes)
    requires |Decimal(v)| <= n
    requires |Decimal(v)| < n || rest == [] || !IsDigit(rest[0])
    ensures ScanNumber(SpacePad(n, Decimal(v)) + rest) == Some(v)
    ensures ScanRest(SpacePad(n, Decimal(v)) + rest)
         == Repeat(SPACE, n - |Decimal(v)|) + rest
  {
    var tail := Repeat(SPACE, n - |Decimal(v)|) + rest;
    assert SpacePad(n, Decimal(v)) + rest == Decimal(v) + tail;
    ScanDecimal(v, tail);
  }

  lemma Pow10Ten()
    ensures Pow10(10) == 10_000_000_000
  {
    assert Pow10(5) == 100_000;
    assert Pow10(10) == 100_000 * Pow10(5);
  }

  // ----- reading a header ----------------------------------------------------

  /** struct areltdata, with the file position the read leaves behind. */
  datatype Element = Element(name: Bytes, parsed: nat, extra: nat, origin: int, body: nat)

  /** memchr: the first b in s, or |s|. */
  function Find(s: Bytes, b: Byte): (k: nat)
    ensures k <= |s|
  {
    if s == [] || s[0] == b then 0 else Find(s[1..], b) + 1
  }

  lemma {:induction false} FindFirst(s: Bytes, b: Byte, k: nat)
    requires k <= |s| && b !in s[..k] && (k < |s| ==> s[k] == b)
    ensures Find(s, b) == k
  {
    if k > 0 {
      assert s[..k][0] == s[0] && s[..k][1..] == s[1..][..k - 1];
      FindFirst(s[1..], b, k - 1);
    }
  }

  /** Where a plain name ends: at a NUL, else at '/', else at a space. */
  function ShortLength(field: Bytes): (k: nat)
    ensures k <= |field|
  {
    if NUL in field then Find(field, NUL)
    else if SLASH in field then Find(field, SLASH)
    else Find(field, SPACE)
  }

  predicate IsExtended(raw: Bytes, maxname: nat)
    requires maxname <= 16 <= |raw|
  {
    raw[0] == SLASH || (raw[0] == SPACE && SLASH !in raw[..maxname])
  }

  predicate IsBsd44(raw: Bytes)
    requires 16 <= |raw|
  {
    raw[0] == HASH && raw[1] == ONE && raw[2] == SLASH && IsDigit(raw[3])
  }

  /** get_extended_arelt_filename.  strtol reads on past the name field, as the
      original does; without a digit it yields index 0. */
  function ExtendedName(raw: Bytes, names: Bytes, thin: bool): Result<(Bytes, int)>
    requires |raw| == HDR
  {
    var scan := ScanNumber(raw[1..]);
    var index := if scan.Some? then scan.value else 0;
    if index < 0 || index >= |names| then Err(Malformed)
    else
      var rest := ScanRest(raw[1..]);
      var nested := thin && rest != [] && rest[0] == 58;
      var second := if nested then ScanNumber(rest[1..]) else None;
      Ok((CString(names[index..]), if second.Some? then second.value else 0))
  }

  /** What sscanf makes of the size field: a sign negates modulo 2^64. */
  function ParsedSize(field: Bytes): (r: Option<nat>)
    requires |field| == 10
    ensures r.Some? ==> r.value < TWO64
  {
    Pow10Ten();
    ScanBound(field);
    match ScanNumber(field)
    case None => None
    case Some(v) => Some(if v < 0 then v % TWO64 else v)
  }

  /** _bfd_generic_read_ar_hdr_mag at position pos of the file; `names` is the
      rewritten extended name table when there is one. */
  function ReadHeader(file: Bytes, pos: nat, names: Option<Bytes>, maxname: nat, thin: bool)
    : (r: Result<Element>)
    requires maxname <= 16
    ensures r.Ok? ==> pos + HDR <= r.value.body <= |file| && r.value.parsed < TWO64
  {
    if pos + HDR > |file| then Err(NoMore)
    else
      var raw := file[pos..pos + HDR];
      var parsed := ParsedSize(raw[48..58]);
      if raw[58..] != FMAG || parsed.None? then Err(Malformed)
      else if IsExtended(raw, maxname) && names.Some? then
        match ExtendedName(raw, names.value, thin)
        case Err(e) => Err(e)
        case Ok((name, origin)) => Ok(Element(name, parsed.value, 0, origin, pos + HDR))
      else if IsBsd44(raw) then
        var scan := ScanNumber(raw[3..]);
        var namelen := if scan.Some? then scan.value else 0;
        if namelen < 0 || namelen > parsed.value || namelen > |file| then Err(Malformed)
        else if pos + HDR + namelen > |file| then Err(NoMore)
        else
          Ok(Element(CString(file[pos + HDR..pos + HDR + namelen]),
                     parsed.value - namelen, namelen, 0, pos + HDR + namelen))
      else
        Ok(Element(raw[..ShortLength(raw[..maxname])], parsed.value, 0, 0, pos + HDR))
  }

  // ----- short names ---------------------------------------------------------

  /** A short name in a name field that held `was`: the name, the pad character
      if there is room, and whatever the field held behind them. */
  function ShortField(name: Bytes, pad: Byte, was: Bytes): (r: Bytes)
    requires |name| <= 16 == |was|
    ensures |r| == 16
  {
    if |name| < 16 then name + [pad] + was[|name| + 1..] else name
  }

  /** No NUL inside the part of the field the reader searches, and no digit that
      would make "#1/" look like a 4.4BSD length. */
  predicate CleanField(name: Bytes, was: Bytes, maxname: nat)
    requires |was| == 16 && maxname <= 16
  {
    && (forall i :: |name| < i < maxname ==> was[i] != NUL)
    && (name == [HASH, ONE] ==> !IsDigit(was[3]))
  }

  predicate PlainName(name: Bytes)
  {
    name != [] && NUL !in name && SLASH !in name
  }

  /** The name field of a header made for a file: spaces, then what
      bfd_dont_truncate_arname puts in. */
  function FreshField(name: Bytes, pad: Byte, maxname: nat): (r: Bytes)
    requires maxname <= 16
    ensures |r| == 16
  {
    if |name| <= maxname then ShortField(name, pad, Repeat(SPACE, 16)) else Repeat(SPACE, 16)
  }

  /** Nothing stale is in a fresh header. */
  lemma FreshFieldClean(name: Bytes, pad: Byte, maxname: nat)
    requires |name| <= maxname <= 16
    ensures CleanField(name, FreshField(name, pad, maxname), maxname)
    ensures ShortField(name, pad, FreshField(name, pad, maxname)) == FreshField(name, pad, maxname)
  {
    var f := FreshField(name, pad, maxname);
    forall i | |name| < i < 16
      ensures f[i] == SPACE
    {
      ShortFieldAt(name, pad, Repeat(SPACE, 16), i);
    }
    if |name| < 16 {
      assert f[|name| + 1..] == Repeat(SPACE, 16)[|name| + 1..];
    }
  }

  lemma ShortFieldAt(name: Bytes, pad: Byte, was: Bytes, i: nat)
    requires |name| <= 16 == |was| && i < 16
    ensures ShortField(name, pad, was)[i]
         == if i < |name| then name[i] else if i == |name| then pad else was[i]
  {
  }

  /** What the reader's search makes of a '/'-terminated short name: the whole
      name when a '/' was in reach; otherwise the name up to its first space. */
  lemma ShortLengthOfField(name: Bytes, was: Bytes, maxname: nat)
    requires PlainName(name) && |name| <= maxname <= 16 == |was|
    requires CleanField(name, was, maxname)
    ensures ShortLength(ShortField(name, SLASH, was)[..maxname])
         == if |name| < maxname then |name| else Find(name, SPACE)
  {
    var f := ShortField(name, SLASH, was)[..maxname];
    NoNulInField(name, was, maxname);
    if |name| < maxname {
      FirstSlashOfField(name, was, maxname);
    } else {
      assert f == name;
    }
  }

  lemma NoNulInField(name: Bytes, was: Bytes, maxname: nat)
    requires NUL !in name && |name| <= maxname <= 16 == |was| && CleanField(name, was, maxname)
    ensures NUL !in ShortField(name, SLASH, was)[..maxname]
  {
    var f := ShortField(name, SLASH, was);
    forall i | 0 <= i < maxname
      ensures f[i] != NUL
    {
      ShortFieldAt(name, SLASH, was, i);
      assert i < |name| ==> name[i] in name;
    }
  }

  lemma FirstSlashOfField(name: Bytes, was: Bytes, maxname: nat)
    requires SLASH !in name && |name| < maxname <= 16 == |was|
    ensures SLASH in ShortField(name, SLASH, was)[..maxname]
    ensures Find(ShortField(name, SLASH, was)[..maxname], SLASH) == |name|
  {
    var f := ShortField(name, SLASH, was)[..maxname];
    ShortFieldAt(name, SLASH, was, |name|);
    assert f[|name|] == SLASH;
    assert f[..|name|] == name;
    FindFirst(f, SLASH, |name|);
  }

  /** A short name never looks like an extended one. */
  lemma ShortFieldPlain(name: Bytes, was: Bytes, maxname: nat, raw: Bytes)
    requires PlainName(name) && |name| <= maxname <= 16 == |was|
    requires CleanField(name, was, maxname)
    requires |name| < maxname || name[0] != SPACE
    requires |raw| == HDR && raw[..16] == ShortField(name, SLASH, was)
    ensures !IsExtended(raw, maxname) && !IsBsd44(raw)
  {
    var field := ShortField(name, SLASH, was);
    forall i | 0 <= i < 16
      ensures raw[i] == field[i]
    {
      assert raw[..16][i] == raw[i];
    }
    assert name[0] in name;
    if |name| < maxname {
      ShortFieldAt(name, SLASH, was, |name|);
      assert raw[..maxname][|name|] == SLASH;
    }
    ShortFieldAt(name, SLASH, was, 0);
    ShortFieldAt(name, SLASH, was, 1);
    ShortFieldAt(name, SLASH, was, 2);
    ShortFieldAt(name, SLASH, was, 3);
    if |name| > 2 {
      assert name[2] in name;
    } else if |name| == 2 {
      assert name == [name[0], name[1]];
    }
  }

  /** A short name is taken for a 4.4BSD length exactly when it is "#1" and the
      field still holds a digit from an earlier use. */
  lemma Bsd44LookalikeIff(name: Bytes, was: Bytes)
    requires PlainName(name) && |name| < 16 == |was|
    ensures IsBsd44(ShortField(name, SLASH, was)) <==> name == [HASH, ONE] && IsDigit(was[3])
  {
    ShortFieldAt(name, SLASH, was, 0);
    ShortFieldAt(name, SLASH, was, 1);
    ShortFieldAt(name, SLASH, was, 2);
    ShortFieldAt(name, SLASH, was, 3);
    if |name| > 2 {
      assert name[2] in name;
    } else if |name| == 2 {
      assert name == [name[0], name[1]];
    }
  }

  /** A header that says nothing special is read by its three fields. */
  lemma PlainHeaderReads(file: Bytes, pos: nat, names: Option<Bytes>, maxname: nat, thin: bool, raw: Bytes)
    requires maxname <= 16 && |raw| == HDR && At(file, pos, raw)
    requires raw[58..] == FMAG && ParsedSize(raw[48..58]).Some?
    requires IsExtended(raw, maxname) ==> names.None?
    requires !IsBsd44(raw)
    ensures ReadHeader(file, pos, names, maxname, thin)
         == Ok(Element(raw[..ShortLength(raw[..maxname])], ParsedSize(raw[48..58]).value, 0, 0, pos + HDR))
  {
    assert file[pos..pos + HDR] == raw;
  }

  /** A header whose name is looked up in the table. */
  lemma ExtendedHeaderReads(file: Bytes, pos: nat, names: Bytes, maxname: nat, thin: bool, raw: Bytes,
                            size: nat, name: Bytes, origin: int, h: Element)
    requires maxname <= 16 && |raw| == HDR && At(file, pos, raw)
    requires raw[58..] == FMAG && ParsedSize(raw[48..58]) == Some(size)
    requires IsExtended(raw, maxname) && ExtendedName(raw, names, thin) == Ok((name, origin))
    requires h == Element(name, size, 0, origin, pos + HDR)
    ensures ReadHeader(file, pos, Some(names), maxname, thin) == Ok(h)
  {
    assert file[pos..pos + HDR] == raw;
  }

  /** The size field of a header that was read holds the size with the length of
      the name behind the header. */
  lemma SizeAsRead(file: Bytes, pos: nat, names: Option<Bytes>, maxname: nat, thin: bool)
    requires maxname <= 16
    ensures var r := ReadHeader(file, pos, names, maxname, thin);
      r.Ok? ==> ParsedSize(file[pos..pos + HDR][48..58]) == Some(r.value.parsed + r.value.extra)
  {
  }

  lemma PaddedSize(size: nat)
    requires size < Pow10(10)
    ensures SizePad(10, size).Some? && ParsedSize(SizePad(10, size).value) == Some(size)
  {
    SizePadReads(10, size);
  }

  /** The name a short header gives: cut at the first space when it fills all
      the room there is. */
  function ShortRead(name: Bytes, maxname: nat): Bytes
  {
    if |name| < maxname then name else name[..Find(name, SPACE)]
  }

  lemma ShortNameOf(raw: Bytes, name: Bytes, was: Bytes, maxname: nat)
    requires PlainName(name) && |name| <= maxname <= 16 == |was|
    requires CleanField(name, was, maxname)
    requires |raw| == HDR && raw[..16] == ShortField(name, SLASH, was)
    ensures raw[..ShortLength(raw[..maxname])] == ShortRead(name, maxname)
  {
    var field := ShortField(name, SLASH, was);
    ShortLengthOfField(name, was, maxname);
    assert raw[..maxname] == raw[..16][..maxname];
    var k := ShortLength(raw[..maxname]);
    assert raw[..k] == raw[..16][..k];
    assert field[..|name|] == name;
    assert field[..k] == field[..|name|][..k];
  }

  /** Reading a short-named header back. */
  lemma ShortHeaderReads(file: Bytes, pos: nat, names: Option<Bytes>, maxname: nat, thin: bool,
                         name: Bytes, was: Bytes, misc: Bytes, digits: Bytes, size: nat)
    requires PlainName(name) && |name| <= maxname <= 16 == |was| && |misc| == 32
    requires CleanField(name, was, maxname) && |digits| == 10 && ParsedSize(digits) == Some(size)
    requires At(file, pos, Image(ShortField(name, SLASH, was), misc, digits))
    requires |name| < maxname || name[0] != SPACE
    ensures ReadHeader(file, pos, names, maxname, thin)
         == Ok(Element(ShortRead(name, maxname), size, 0, 0, pos + HDR))
  {
    var raw := Image(ShortField(name, SLASH, was), misc, digits);
    ShortNameOf(raw, name, was, maxname);
    ShortFieldPlain(name, was, maxname, raw);
    PlainHeaderReads(file, pos, names, maxname, thin, raw);
  }
}
