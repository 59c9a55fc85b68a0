/** The header of a data file: what is written when the file is created and what opening it makes of it. */
module Headers {
  import opened Bytes

  datatype Result<+T> = Ok(value: T) | Err(error: Error)

  datatype Error = Incompatible | RecordTooLong | HeaderTooLong | LongName | BadFile | BadField | BadType

  const END_OF_FIELDS: Byte := 0x0D
  const END_OF_FILE: Byte := 0x1A
  const IMAGE := 32

  // ----- field definitions -----

  datatype Kind = Str | Num | Float | Date | Log | Memo | Gen | MemoBin | CharBin
                | Currency | DateTime | DateTimeMilli | Double | FloatBin | Int

  type Word = x: int | 0 <= x < 65536

  datatype FieldDef = FieldDef(name: seq<Byte>, kind: Kind, len: Word, dec: Word, nulls: bool)

  /** The letter a type is stored under; two binary types share the letter of their text twin. */
  function Letter(k: Kind): Byte {
    match k
    case Str => 'C' as int
    case Num => 'N' as int
    case Float => 'F' as int
    case Date => 'D' as int
    case Log => 'L' as int
    case Memo => 'M' as int
    case Gen => 'G' as int
    case MemoBin => 'M' as int
    case CharBin => 'C' as int
    case Currency => 'Y' as int
    case DateTime => 'T' as int
    case DateTimeMilli => '7' as int
    case Double => 'B' as int
    case FloatBin => 'H' as int
    case Int => 'I' as int
  }

  const SYSTEM: Byte := '0' as int
  const NULL_FLAGS: seq<Byte> :=
    ['_' as int, 'N' as int, 'u' as int, 'l' as int, 'l' as int,
     'F' as int, 'l' as int, 'a' as int, 'g' as int, 's' as int]

  /** Types that only a Visual FoxPro file may have. */
  predicate OnlyThirty(k: Kind) {
    k in {MemoBin, CharBin, Currency, DateTime, DateTimeMilli, Double, FloatBin, Int}
  }

  predicate IsMemo(k: Kind) {
    k in {Memo, Gen, MemoBin}
  }

  predicate Binary(k: Kind) {
    k in {MemoBin, CharBin, Currency, DateTime, DateTimeMilli, Double, FloatBin, Int}
  }

  /** The bytes a field takes up in a record. */
  function Size(d: FieldDef, thirty: bool): nat {
    match d.kind
    case Str => d.len
    case Num => d.len
    case Float => d.len
    case CharBin => d.len
    case Memo => if thirty then 4 else 10
    case Gen => if thirty then 4 else 10
    case MemoBin => 4
    case Date => 8
    case Log => 1
    case Currency => 8
    case DateTime => 8
    case DateTimeMilli => 8
    case Double => 8
    case FloatBin => 4
    case Int => 4
  }

  function Sizes(ds: seq<FieldDef>, thirty: bool): nat {
    if ds == [] then 0 else Sizes(ds[..|ds| - 1], thirty) + Size(ds[|ds| - 1], thirty)
  }

  /** How many fields may be null; only a Visual FoxPro file keeps track. */
  function Nulls(ds: seq<FieldDef>, thirty: bool): nat {
    if ds == [] then 0
    else Nulls(ds[..|ds| - 1], thirty) + if thirty && ds[|ds| - 1].nulls then 1 else 0
  }

  function NullBytes(nulls: nat): nat {
    (nulls + 7) / 8
  }

  /** The width of a record: the deletion mark, the fields, the null flags. */
  function Width(ds: seq<FieldDef>, thirty: bool): nat {
    1 + Sizes(ds, thirty) + NullBytes(Nulls(ds, thirty))
  }

  function HeaderLength(fields: nat, nulls: nat, thirty: bool): nat {
    IMAGE * (fields + 1) + 1 + (if thirty && nulls > 0 then IMAGE else 0) + (if thirty then 263 else 0)
  }

  datatype Totals = Totals(width: nat, nulls: nat, memo: bool)

  predicate HasMemo(ds: seq<FieldDef>) {
    exists i :: 0 <= i < |ds| && IsMemo(ds[i].kind)
  }

  predicate Compatible(ds: seq<FieldDef>, thirty: bool) {
    thirty || forall i :: 0 <= i < |ds| ==> !OnlyThirty(ds[i].kind)
  }

  /** Adds up the record; the null flags are added after the length has been checked. */
  method CalculateRecordLength(ds: seq<FieldDef>, thirty: bool) returns (r: Result<Totals>)
    ensures r == if !Compatible(ds, thirty) then Err(Incompatible)
                 else if 1 + Sizes(ds, thirty) >= 65535 then Err(RecordTooLong)
                 else Ok(Totals(Width(ds, thirty), Nulls(ds, thirty), HasMemo(ds)))
  {
    var width, nulls, memo, i := 1, 0, false, 0;
    while i < |ds|
      invariant 0 <= i <= |ds|
      invariant width == 1 + Sizes(ds[..i], thirty) && nulls == Nulls(ds[..i], thirty)
      invariant memo <==> exists j :: 0 <= j < i && IsMemo(ds[j].kind)
      invariant !thirty ==> forall j :: 0 <= j < i ==> !OnlyThirty(ds[j].kind)
    {
      assert ds[..i + 1][..i] == ds[..i];
      if thirty && ds[i].nulls {
        nulls := nulls + 1;
      }
      if IsMemo(ds[i].kind) {
        memo := true;
      }
      if OnlyThirty(ds[i].kind) && !thirty {
        return Err(Incompatible);
      }
      width := width + Size(ds[i], thirty);
      i := i + 1;
    }
    assert ds[..i] == ds;
    if width >= 65535 {
      return Err(RecordTooLong);
    }
    if thirty && nulls > 0 {
      width := width + NullBytes(nulls);
    }
    NoNulls(ds, thirty);
    r := Ok(Totals(width, nulls, memo));
  }

  lemma {:induction false} NoNulls(ds: seq<FieldDef>, thirty: bool)
    ensures !thirty ==> Nulls(ds, thirty) == 0
    ensures Nulls(ds, thirty) <= |ds|
  {
    if ds != [] { NoNulls(ds[..|ds| - 1], thirty); }
  }

  // ----- writing -----

  function Low(w: int): Byte { w % 256 }

  function Short(w: Word): seq<Byte> {
    [w % 256, w / 256]
  }

  /** A record offset goes through a signed 16-bit number on its way into its four bytes. */
  function Offset(off: nat): seq<Byte> {
    var w := off % 65536;
    [w % 256, w / 256] + if w < 32768 then [0, 0] else [255, 255]
  }

  function Trim(s: seq<Byte>): (r: seq<Byte>)
    ensures |r| <= |s| && r == s[..|r|]
  {
    if s != [] && s[|s| - 1] in {0, ' ' as int} then Trim(s[..|s| - 1]) else s
  }

  function Upper(s: seq<Byte>): (r: seq<Byte>)
    ensures |r| == |s|
  {
    if s == [] then [] else [if 'a' as int <= s[0] <= 'z' as int then s[0] - 32 else s[0]] + Upper(s[1..])
  }

  /** A name as it is stored: trimmed and in upper case. */
  function Fold(name: seq<Byte>): (r: seq<Byte>)
    ensures |r| <= |name|
  {
    Upper(Trim(name))
  }

  /** No name is longer than the ten characters there is room for. */
  predicate ShortNames(ds: seq<FieldDef>) {
    forall i :: 0 <= i < |ds| ==> |ds[i].name| <= 10
  }

  function Padded(name: seq<Byte>): (r: seq<Byte>)
    requires |name| <= 10
    ensures |r| == 11 && r[..|name|] == name && forall i :: |name| <= i < 11 ==> r[i] == 0
  {
    name + Zeros(11 - |name|)
  }

  type Image = s: seq<Byte> | |s| == IMAGE witness Zeros(IMAGE)

  /** The description of a field: its name, type, offset, length, decimals and flags, then unused bytes. */
  function MakeImage(name: seq<Byte>, letter: Byte, offset: nat, len: Byte, dec: Byte, flags: Byte): (r: Image)
    requires |name| <= 10
    ensures r[..11] == Padded(name) && r[11] == letter && r[16] == len && r[17] == dec && r[18] == flags
  {
    Padded(name) + [letter] + Offset(offset) + [len, dec, flags] + Zeros(13)
  }

  /** Where the length goes over one byte, the decimals' byte takes the rest. */
  function StoredLen(d: FieldDef, thirty: bool): Byte {
    if d.kind in {Str, CharBin, Num, Float} then d.len % 256 else Size(d, thirty)
  }

  function StoredDec(d: FieldDef): Byte {
    match d.kind
    case Str => d.len / 256
    case CharBin => d.len / 256
    case Num => d.dec % 256
    case Float => d.dec % 256
    case Currency => 4
    case Double => d.dec % 256
    case FloatBin => d.dec % 256
    case _ => 0
  }

  function Flags(d: FieldDef): Byte {
    (if d.nulls then 2 else 0) + (if Binary(d.kind) then 4 else 0)
  }

  function FieldImage(d: FieldDef, thirty: bool, offset: nat): Image
    requires |d.name| <= 10
  {
    MakeImage(Fold(d.name), Letter(d.kind), offset, StoredLen(d, thirty), StoredDec(d), Flags(d))
  }

  function NullImage(nulls: nat, offset: nat): Image {
    MakeImage(NULL_FLAGS, SYSTEM, offset, Low(NullBytes(nulls)), 0, 5)
  }

  function Raw(ds: seq<FieldDef>): nat {
    if ds == [] then 1 else Raw(ds[..|ds| - 1]) + ds[|ds| - 1].len
  }

  function FieldImages(ds: seq<FieldDef>, thirty: bool): (r: seq<Image>)
    requires ShortNames(ds)
    ensures |r| == |ds|
  {
    if ds == [] then []
    else FieldImages(ds[..|ds| - 1], thirty) + [FieldImage(ds[|ds| - 1], thirty, Raw(ds[..|ds| - 1]))]
  }

  function Images(ds: seq<FieldDef>, thirty: bool): seq<Image>
    requires ShortNames(ds)
  {
    var nulls := Nulls(ds, thirty);
    FieldImages(ds, thirty) + if nulls > 0 then [NullImage(nulls, Raw(ds))] else []
  }

  function Flat(images: seq<Image>): (r: seq<Byte>)
    ensures |r| == IMAGE * |images|
  {
    if images == [] then [] else Flat(images[..|images| - 1]) + images[|images| - 1]
  }

  lemma {:induction false} FlatAt(images: seq<Image>, i: nat)
    requires i < |images|
    ensures Flat(images)[IMAGE * i..IMAGE * (i + 1)] == images[i]
  {
    var n := |images| - 1;
    if i < n {
      FlatAt(images[..n], i);
      assert Flat(images)[IMAGE * i..IMAGE * (i + 1)] == Flat(images[..n])[IMAGE * i..IMAGE * (i + 1)];
    }
  }

  lemma {:induction false} FlatAppend(a: seq<Image>, b: Image)
    ensures Flat(a + [b]) == Flat(a) + b
  {
    assert (a + [b])[..|a + [b]| - 1] == a;
  }

  datatype Stamp = Stamp(yy: Byte, mm: Byte, dd: Byte, codePage: Byte)

  function Version(thirty: bool, memo: bool): Byte {
    if thirty then 0x30 else if memo then 0xF5 else 0x03
  }

  /** The first bytes of the file; the record count is zero. */
  function Fixed(thirty: bool, memo: bool, stamp: Stamp, headerLen: Word, recordLen: Word): (r: Image)
    ensures r[0] == Version(thirty, memo) && r[1] == stamp.yy && r[2] == stamp.mm && r[3] == stamp.dd
    ensures r[4..8] == [0, 0, 0, 0]
    ensures r[8..10] == Short(headerLen) && r[10..12] == Short(recordLen)
    ensures forall i :: 12 <= i < 28 ==> r[i] == 0
    ensures r[28] == (if thirty && memo then 2 else 0) && r[29] == stamp.codePage
  {
    [Version(thirty, memo), stamp.yy, stamp.mm, stamp.dd, 0, 0, 0, 0]
    + Short(headerLen) + Short(recordLen) + Zeros(16)
    + [if thirty && memo then 2 else 0, stamp.codePage, 0, 0]
  }

  function Tail(thirty: bool): seq<Byte> {
    [END_OF_FIELDS] + if thirty then Zeros(263) else [END_OF_FILE]
  }

  /** The whole header of a new file. */
  function Printed(ds: seq<FieldDef>, thirty: bool, memo: bool, stamp: Stamp): seq<Byte>
    requires ShortNames(ds) && HeaderLength(|ds|, Nulls(ds, thirty), thirty) < 65536
  {
    Fixed(thirty, memo, stamp, HeaderLength(|ds|, Nulls(ds, thirty), thirty), Width(ds, thirty) % 65536)
    + Flat(Images(ds, thirty)) + Tail(thirty)
  }

  /** Writes the header image by image; its length is the length it states, and one more for the end mark
      of a file that is not a Visual FoxPro file. */
  method CreateHeader(ds: seq<FieldDef>, thirty: bool, stamp: Stamp) returns (r: Result<seq<Byte>>)
    ensures r.Ok? <==>
              && Compatible(ds, thirty) && 1 + Sizes(ds, thirty) < 65535
              && HeaderLength(|ds|, Nulls(ds, thirty), thirty) + 1 < 65535 && ShortNames(ds)
    ensures r.Ok? ==>
              && r.value == Printed(ds, thirty, HasMemo(ds), stamp)
              && |r.value| == HeaderLength(|ds|, Nulls(ds, thirty), thirty) + if thirty then 0 else 1
  {
    hide Sizes, Nulls, FieldImage, FieldImages, Fixed, Raw, NullImage, Zeros, Flat, HasMemo, Compatible, Width;
    var t := CalculateRecordLength(ds, thirty);
    if t.Err? {
      return Err(t.error);
    }
    var headerLen := HeaderLength(|ds|, t.value.nulls, thirty);
    if headerLen + 1 >= 65535 {
      return Err(HeaderTooLong);
    }
    if exists i :: 0 <= i < |ds| && |ds[i].name| > 10 {
      return Err(LongName);
    }
    var fixed := Fixed(thirty, t.value.memo, stamp, headerLen, t.value.width % 65536);
    var images := WriteImages(ds, thirty, t.value.nulls);
    NoNulls(ds, thirty);
    r := Ok(fixed + images + Tail(thirty));
  }

  method WriteImages(ds: seq<FieldDef>, thirty: bool, nulls: nat) returns (out: seq<Byte>)
    requires nulls == Nulls(ds, thirty) && ShortNames(ds)
    ensures out == Flat(Images(ds, thirty))
  {
    hide FieldImage, NullImage, Flat;
    var offset, i := 1, 0;
    out := [];
    NoImages();
    while i < |ds|
      invariant 0 <= i <= |ds| && offset == Raw(ds[..i])
      invariant out == Flat(FieldImages(ds[..i], thirty))
    {
      assert ds[..i + 1][..i] == ds[..i];
      FlatAppend(FieldImages(ds[..i], thirty), FieldImage(ds[i], thirty, offset));
      out := out + FieldImage(ds[i], thirty, offset);
      offset := offset + ds[i].len;
      i := i + 1;
    }
    assert ds[..i] == ds;
    if nulls > 0 {
      FlatAppend(FieldImages(ds, thirty), NullImage(nulls, offset));
      out := out + NullImage(nulls, offset);
    } else {
      assert FieldImages(ds, thirty) + [] == FieldImages(ds, thirty);
    }
  }

  lemma {:induction false} NoImages()
    ensures Flat([]) == []
  {
  }

  // ----- reading -----

  /** A field of an open table.  `binary` is 2 for a memo that is not marked binary; the null bit is kept
      as a byte of the null flags and a mask. */
  datatype Field = Field(name: seq<Byte>, letter: Byte, len: nat, dec: nat, nullable: bool, binary: nat,
                         offset: nat, nullByte: nat, nullMask: nat)

  datatype Table = Table(version: Byte, headerLen: nat, recWidth: nat, memo: bool, fields: seq<Field>)

  function Join(low: Byte, high: Byte): Word {
    var l: int, h: int := low, high;
    l + 256 * h
  }

  function Word16(b: seq<Byte>): Word
    requires |b| == 2
  {
    Join(b[0], b[1])
  }

  function ImageAt(info: seq<Byte>, i: nat): Image
    requires IMAGE * (i + 1) <= |info|
  {
    info[IMAGE * i..IMAGE * (i + 1)]
  }

  function ImagesOf(info: seq<Byte>, n: nat): (r: seq<Image>)
    requires IMAGE * n <= |info|
    ensures |r| == n && forall i :: 0 <= i < n ==> r[i] == ImageAt(info, i)
  {
    if n == 0 then [] else ImagesOf(info, n - 1) + [ImageAt(info, n - 1)]
  }

  /** Versions are compared as signed characters. */
  predicate BeforeThirty(version: Byte) {
    version < 0x30 || version >= 0x80
  }

  /** What a field adds to the width of the record. */
  function ImageWidth(im: Image, version: Byte): Result<nat> {
    var letter, len, dec := im[11], im[16], im[17];
    if letter in {Letter(Memo), Letter(Gen), Letter(Num), Letter(Float), Letter(Log), Letter(Date)} then Ok(len)
    else if letter == Letter(Int) then if len != 4 then Err(BadField) else Ok(len)
    else if letter == Letter(Str) then Ok(Join(len, dec))
    else if letter in {Letter(Double), Letter(FloatBin), Letter(Currency), Letter(DateTime), Letter(DateTimeMilli)} then
      if BeforeThirty(version) then Err(BadField) else Ok(len)
    else if letter == SYSTEM then if BeforeThirty(version) || im[..10] != NULL_FLAGS then Err(BadField) else Ok(len)
    else Err(BadType)
  }

  function UpToZero(s: seq<Byte>): (r: seq<Byte>)
    ensures |r| <= |s| && r == s[..|r|]
  {
    if s == [] || s[0] == 0 then [] else [s[0]] + UpToZero(s[1..])
  }

  function Pow2(n: nat): (p: nat)
    ensures p > 0
  {
    if n == 0 then 1 else 2 * Pow2(n - 1)
  }

  predicate Bit(b: Byte, mask: nat)
    requires mask > 0
  {
    (b / mask) % 2 == 1
  }

  function FieldLen(im: Image): nat {
    var letter := im[11];
    if letter == Letter(Str) || letter == SYSTEM then Join(im[16], im[17]) else im[16]
  }

  /** The field an image describes, put at `offset` with the null bit `bit`. */
  function FieldOf(im: Image, thirty: bool, offset: nat, bit: nat): Field {
    var letter := im[11];
    var nullable := thirty && Bit(im[18], 2);
    Field(Upper(UpToZero(im[..10])), letter, FieldLen(im),
          if letter in {Letter(Num), Letter(Float), Letter(Currency), Letter(DateTime), Letter(DateTimeMilli),
                        Letter(FloatBin), Letter(Double)} then im[17] else 0,
          nullable,
          if !thirty then 0 else if Bit(im[18], 4) then 1 else if letter in {Letter(Memo), Letter(Gen)} then 2 else 0,
          offset, if nullable then bit / 8 else 0, if nullable then Pow2(bit % 8) else 0)
  }

  lemma {:induction false} FieldLaid(im: Image, thirty: bool, offset: nat, bit: nat)
    ensures var f := FieldOf(im, thirty, offset, bit);
            && f.len == FieldLen(im) && f.offset == offset && (f.nullable <==> thirty && Bit(im[18], 2))
            && (f.nullable ==> f.nullByte == bit / 8 && f.nullMask == Pow2(bit % 8))
  {
  }

  function EndOffset(images: seq<Image>): nat {
    if images == [] then 1 else EndOffset(images[..|images| - 1]) + FieldLen(images[|images| - 1])
  }

  function NullCount(images: seq<Image>, thirty: bool): nat {
    if images == [] then 0
    else NullCount(images[..|images| - 1], thirty) + if thirty && Bit(images[|images| - 1][18], 2) then 1 else 0
  }

  function Parsed(images: seq<Image>, thirty: bool): (r: seq<Field>)
    ensures |r| == |images|
  {
    if images == [] then []
    else
      var before := images[..|images| - 1];
      Parsed(before, thirty) + [FieldOf(images[|images| - 1], thirty, EndOffset(before), NullCount(before, thirty))]
  }

  /** The width of a record with these fields, or why they cannot be read. */
  function Widths(images: seq<Image>, version: Byte): Result<nat> {
    if images == [] then Ok(1)
    else
      var before := Widths(images[..|images| - 1], version);
      if before.Err? then before
      else
        var w := ImageWidth(images[|images| - 1], version);
        if w.Err? then w else Ok(before.value + w.value)
  }

  /** How many images there are before the mark that ends them. */
  method SetNumFields(info: seq<Byte>) returns (r: Result<nat>)
    ensures r.Ok? ==>
              && IMAGE * r.value < |info| && info[IMAGE * r.value] == END_OF_FIELDS
              && forall i :: 0 <= i < r.value ==> info[IMAGE * i] != END_OF_FIELDS
    ensures r.Err? ==> forall i :: 0 <= i && IMAGE * i < |info| ==> info[IMAGE * i] != END_OF_FIELDS
  {
    var count, n := 0, 0;
    while true
      invariant count == IMAGE * n
      invariant forall i :: 0 <= i < n && IMAGE * i < |info| ==> info[IMAGE * i] != END_OF_FIELDS
      decreases |info| - count
    {
      if count >= |info| {
        return Err(BadFile);
      }
      if info[count] == END_OF_FIELDS {
        return Ok(n);
      }
      count, n := count + IMAGE, n + 1;
    }
  }

  method SetupFields(info: seq<Byte>, n: nat, version: Byte) returns (r: Result<nat>)
    requires IMAGE * n <= |info|
    ensures r == Widths(ImagesOf(info, n), version)
  {
    hide ImageWidth, ImagesOf;
    var width, i := 1, 0;
    ghost var images := ImagesOf(info, n);
    while i < n
      invariant 0 <= i <= n
      invariant Widths(images[..i], version) == Ok(width)
    {
      assert images[..i + 1][..i] == images[..i];
      var w := ImageWidth(ImageAt(info, i), version);
      if w.Err? {
        ErrStays(images, i + 1, version);
        return w;
      }
      width := width + w.value;
      i := i + 1;
    }
    assert images[..n] == images;
    r := Ok(width);
  }

  lemma {:induction false} ErrStays(images: seq<Image>, i: nat, version: Byte)
    requires i <= |images| && Widths(images[..i], version).Err?
    ensures Widths(images, version) == Widths(images[..i], version)
  {
    hide ImageWidth;
    if i < |images| {
      assert images[..|images| - 1][..i] == images[..i];
      ErrStays(images[..|images| - 1], i, version);
    } else {
      assert images[..i] == images;
    }
  }

  /** Lays the fields out one after the other and gives each nullable one the next null bit. */
  method ConcludeSetupFields(info: seq<Byte>, n: nat, thirty: bool) returns (fields: seq<Field>)
    requires IMAGE * n <= |info|
    ensures fields == Parsed(ImagesOf(info, n), thirty)
  {
    hide FieldOf, ImagesOf, FieldLen;
    var recOffset, nullCount, i := 1, 0, 0;
    ghost var images := ImagesOf(info, n);
    fields := [];
    while i < n
      invariant 0 <= i <= n
      invariant fields == Parsed(images[..i], thirty)
      invariant recOffset == EndOffset(images[..i]) && nullCount == NullCount(images[..i], thirty)
    {
      assert images[..i + 1][..i] == images[..i];
      var im := ImageAt(info, i);
      var f := FieldOf(im, thirty, recOffset, nullCount);
      FieldLaid(im, thirty, recOffset, nullCount);
      if f.nullable {
        nullCount := nullCount + 1;
      }
      fields := fields + [f];
      recOffset := recOffset + f.len;
      i := i + 1;
    }
    assert images[..n] == images;
  }

  /** A file with extensions says which; the ones modelled leave the fields as they are. */
  predicate Supported(file: seq<Byte>)
    requires |file| >= 32
  {
    file[0] == 0x31 ==> file[12] == 0 && file[13] <= 1 && file[14] <= 1 && file[15..20] == [0, 0, 0, 0, 0]
  }

  function VersionOf(file: seq<Byte>): Byte
    requires |file| >= 32
  {
    if file[0] == 0x31 then 0x30 else file[0]
  }

  predicate Compressed(file: seq<Byte>)
    requires |file| >= 32
  {
    file[0] == 0x31 && file[14] == 1
  }

  function RecordCount(file: seq<Byte>): nat
    requires |file| >= 32
  {
    Join(file[4], file[5]) + 65536 * Join(file[6], file[7])
  }

  /** The file is not too long, and for the first to open it alone it is as long as its records make it. */
  predicate LengthOk(file: seq<Byte>, exclusive: bool)
    requires |file| >= 32 && Word16(file[8..10]) <= |file| && Word16(file[10..12]) != 0
  {
    var count := (|file| - Word16(file[8..10])) / Word16(file[10..12]);
    count < 0x1_0000_0000 && (exclusive && !Compressed(file) ==> RecordCount(file) == count)
  }

  /** What the header of a file says, once it has been found sound. */
  function Opened(file: seq<Byte>, n: nat): Table
    requires |file| >= 32 && 32 <= Word16(file[8..10]) <= |file| && IMAGE * n <= Word16(file[8..10]) - 32
  {
    var info, version := file[32..Word16(file[8..10])], VersionOf(file);
    Table(version, Word16(file[8..10]), Word16(file[10..12]),
          if version == 0x30 then Bit(file[28], 2) else Bit(version, 128),
          Parsed(ImagesOf(info, n), version == 0x30))
  }

  /** A header that can be read, with `n` field images. */
  ghost predicate Opens(file: seq<Byte>, exclusive: bool, n: nat) {
    && |file| >= 32 && Supported(file) && file[4..8] != [255, 255, 255, 255]
    && 32 < Word16(file[8..10]) <= |file| && Word16(file[10..12]) != 0 && LengthOk(file, exclusive)
    && IMAGE * n < Word16(file[8..10]) - 32
    && var info := file[32..Word16(file[8..10])];
       && info[IMAGE * n] == END_OF_FIELDS && (forall i :: 0 <= i < n ==> info[IMAGE * i] != END_OF_FIELDS)
       && Widths(ImagesOf(info, n), VersionOf(file)) == Ok(Word16(file[10..12]))
  }

  /** There is only one number of fields a header can be read with. */
  lemma {:induction false} OpensOnce(file: seq<Byte>, exclusive: bool, n: nat, m: nat)
    requires Opens(file, exclusive, m) && IMAGE * n < Word16(file[8..10]) - 32
    requires var info := file[32..Word16(file[8..10])];
             info[IMAGE * n] == END_OF_FIELDS && forall i :: 0 <= i < n ==> info[IMAGE * i] != END_OF_FIELDS
    ensures n == m
  {
    hide Widths, ImagesOf;
  }

  method OpenHeader(file: seq<Byte>, exclusive: bool) returns (r: Result<Table>)
    ensures r.Ok? <==> exists n :: Opens(file, exclusive, n)
    ensures r.Ok? ==> forall n :: Opens(file, exclusive, n) ==> r.value == Opened(file, n)
  {
    hide Widths, ImagesOf, Parsed;
    if |file| < 32 || !Supported(file) {
      return Err(BadFile);
    }
    var version, headerLen, recordLen := VersionOf(file), Word16(file[8..10]), Word16(file[10..12]);
    if recordLen == 0 || file[4..8] == [255, 255, 255, 255] || headerLen <= 32 || |file| < headerLen {
      return Err(BadFile);
    }
    if !LengthOk(file, exclusive) {
      return Err(BadFile);
    }
    var info := file[32..headerLen];
    var count := SetNumFields(info);
    if count.Err? {
      return Err(BadFile);
    }
    var n := count.value;
    forall m | Opens(file, exclusive, m) ensures m == n { OpensOnce(file, exclusive, n, m); }
    var width := SetupFields(info, n, version);
    if width.Err? {
      return Err(width.error);
    }
    if width.value != recordLen {
      return Err(BadField);
    }
    assert Opens(file, exclusive, n);
    var fields := ConcludeSetupFields(info, n, version == 0x30);
    var memo := if version == 0x30 then Bit(file[28], 2) else Bit(version, 128);
    r := Ok(Table(version, headerLen, recordLen, memo, fields));
  }

  // ----- what every table that opens keeps -----

  /** Fields follow one another from the byte after the deletion mark. */
  lemma {:induction false} Contiguous(images: seq<Image>, thirty: bool, i: nat)
    requires i < |images|
    ensures Parsed(images, thirty)[i].offset == EndOffset(images[..i])
    ensures Parsed(images, thirty)[i].len == FieldLen(images[i])
    ensures Parsed(images, thirty)[i].offset + Parsed(images, thirty)[i].len == EndOffset(images[..i + 1])
    ensures EndOffset(images[..i + 1]) <= EndOffset(images)
  {
    hide FieldOf, FieldLen;
    var n := |images| - 1;
    FieldLaid(images[n], thirty, EndOffset(images[..n]), NullCount(images[..n], thirty));
    assert images[..i + 1][..i] == images[..i];
    if i < n {
      Contiguous(images[..n], thirty, i);
      assert images[..n][..i] == images[..i] && images[..n][..i + 1] == images[..i + 1];
    } else {
      assert images[..i + 1] == images;
    }
  }

  lemma {:induction false} EndsGrow(images: seq<Image>, i: nat, j: nat)
    requires i <= j <= |images|
    ensures EndOffset(images[..i]) <= EndOffset(images[..j])
  {
    if i < j {
      assert images[..j][..j - 1] == images[..j - 1];
      EndsGrow(images, i, j - 1);
    }
  }

  /** No two fields share a byte of the record. */
  lemma {:induction false} Disjoint(images: seq<Image>, thirty: bool, i: nat, j: nat)
    requires i < j < |images|
    ensures var fs := Parsed(images, thirty);
            1 <= fs[i].offset && fs[i].offset + fs[i].len <= fs[j].offset
            && fs[j].offset + fs[j].len <= EndOffset(images)
  {
    Contiguous(images, thirty, i);
    Contiguous(images, thirty, j);
    EndsGrow(images, i + 1, j);
    EndsGrow(images, 0, i);
  }

  /** The decimals of a null-flags image, which are added to its length and not to the record's. */
  function Stray(images: seq<Image>): nat {
    if images == [] then 0
    else
      var im := images[|images| - 1];
      Stray(images[..|images| - 1]) + if im[11] == SYSTEM then im[17] else 0
  }

  /** The last field ends where the record does exactly when no null-flags image has decimals. */
  lemma {:induction false} EndsAtWidth(images: seq<Image>, version: Byte)
    requires Widths(images, version).Ok?
    ensures EndOffset(images) == Widths(images, version).value + 256 * Stray(images)
    ensures EndOffset(images) == Widths(images, version).value <==> Stray(images) == 0
  {
    if images != [] {
      EndsAtWidth(images[..|images| - 1], version);
    }
  }

  /** Null flags of one byte, with one decimal: the only field ends 256 bytes behind the record. */
  lemma {:induction false} EndsBehind() returns (images: seq<Image>)
    ensures Widths(images, 0x30) == Ok(2) && EndOffset(images) == 258
  {
    var im: Image := MakeImage(NULL_FLAGS, SYSTEM, 1, 1, 1, 5);
    assert im[..10] == im[..11][..10] == NULL_FLAGS;
    images := [im];
    assert images[..0] == [] && images[0] == im;
    assert Widths([], 0x30) == Ok(1) && EndOffset([]) == 1;
  }

  lemma {:induction false} Pow2Apart(i: nat, j: nat)
    requires i < j
    ensures Pow2(i) < Pow2(j)
  {
    if i + 1 < j { Pow2Apart(i, j - 1); }
  }

  lemma {:induction false} NullBitAt(images: seq<Image>, thirty: bool, i: nat)
    requires i < |images| && Parsed(images, thirty)[i].nullable
    ensures var f, bit := Parsed(images, thirty)[i], NullCount(images[..i], thirty);
            f.nullByte == bit / 8 && f.nullMask == Pow2(bit % 8) && bit < NullCount(images[..i + 1], thirty)
            && NullCount(images[..i + 1], thirty) <= NullCount(images, thirty)
  {
    hide FieldOf, Bit;
    var n := |images| - 1;
    FieldLaid(images[n], thirty, EndOffset(images[..n]), NullCount(images[..n], thirty));
    assert images[..i + 1][..i] == images[..i];
    if i < n {
      NullBitAt(images[..n], thirty, i);
      assert images[..n][..i] == images[..i] && images[..n][..i + 1] == images[..i + 1];
    } else {
      assert images[..i + 1] == images;
    }
  }

  lemma {:induction false} NullsGrow(images: seq<Image>, thirty: bool, i: nat, j: nat)
    requires i <= j <= |images|
    ensures NullCount(images[..i], thirty) <= NullCount(images[..j], thirty)
  {
    if i < j {
      assert images[..j][..j - 1] == images[..j - 1];
      NullsGrow(images, thirty, i, j - 1);
    }
  }

  /** Two nullable fields have different bits, and every bit lies in the bytes that many null bits take. */
  lemma {:induction false} NullBitsDistinct(images: seq<Image>, thirty: bool, i: nat, j: nat)
    requires i < j < |images|
    requires Parsed(images, thirty)[i].nullable && Parsed(images, thirty)[j].nullable
    ensures var fs := Parsed(images, thirty);
            && (fs[i].nullByte != fs[j].nullByte || fs[i].nullMask != fs[j].nullMask)
            && fs[i].nullByte < NullBytes(NullCount(images, thirty))
            && fs[j].nullByte < NullBytes(NullCount(images, thirty))
  {
    NullBitAt(images, thirty, i);
    NullBitAt(images, thirty, j);
    NullsGrow(images, thirty, i + 1, j);
    var a, b := NullCount(images[..i], thirty), NullCount(images[..j], thirty);
    if a / 8 == b / 8 { Pow2Apart(a % 8, b % 8); }
  }

  /** Whether the null flags of a record mark the field as null. */
  predicate IsNull(bitmap: seq<Byte>, f: Field) {
    f.nullable && f.nullByte < |bitmap| && f.nullMask > 0 && Bit(bitmap[f.nullByte], f.nullMask)
  }

  /** Two sets of null flags that differ at most in the bit of one field. */
  ghost predicate DifferIn(f: Field, b: seq<Byte>, c: seq<Byte>) {
    && |b| == |c| && (forall k :: 0 <= k < |b| && k != f.nullByte ==> b[k] == c[k])
    && (f.nullByte < |b| ==>
          forall m :: 0 <= m < 8 && Pow2(m) != f.nullMask ==>
            (Bit(b[f.nullByte], Pow2(m)) <==> Bit(c[f.nullByte], Pow2(m))))
  }

  /** Marking one field null, or not, leaves every other field as it was. */
  lemma {:induction false} NullsApart(images: seq<Image>, thirty: bool, i: nat, j: nat, b: seq<Byte>, c: seq<Byte>)
    requires i < |images| && j < |images| && i != j && Parsed(images, thirty)[i].nullable
    requires DifferIn(Parsed(images, thirty)[i], b, c)
    ensures IsNull(b, Parsed(images, thirty)[j]) <==> IsNull(c, Parsed(images, thirty)[j])
  {
    hide Bit;
    if Parsed(images, thirty)[j].nullable {
      NullBitAt(images, thirty, j);
      if i < j { NullBitsDistinct(images, thirty, i, j); } else { NullBitsDistinct(images, thirty, j, i); }
      assert 0 <= NullCount(images[..j], thirty) % 8 < 8;
    }
  }

  // ----- reading back what was written -----

  /** The part of a number field's length that does not fit its byte. */
  function LostOf(d: FieldDef): nat {
    if d.kind in {Num, Float} then d.len / 256 else 0
  }

  function Lost(ds: seq<FieldDef>): nat {
    if ds == [] then 0 else Lost(ds[..|ds| - 1]) + LostOf(ds[|ds| - 1])
  }

  /** A name is a zero-terminated string, and not too long. */
  ghost predicate Terminated(d: FieldDef) {
    |d.name| <= 10 && forall i :: 0 <= i < |d.name| ==> d.name[i] != 0
  }

  /** The stored name starts with the byte that ends the fields. */
  predicate StartsWithEnd(d: FieldDef) {
    Fold(d.name) != [] && Fold(d.name)[0] == END_OF_FIELDS
  }

  ghost predicate Named(d: FieldDef) {
    Terminated(d) && !StartsWithEnd(d)
  }

  /** What opening makes of a field: its type, its length, the decimals that are stored, whether it may be
      null, whether it is binary, and where it lies. */
  function Expected(d: FieldDef, thirty: bool, offset: nat, bit: nat): Field {
    var nullable := thirty && d.nulls;
    Field(Fold(d.name), Letter(d.kind), Size(d, thirty) - 256 * LostOf(d),
          if d.kind in {Num, Float, Double, FloatBin} then d.dec % 256 else if d.kind == Currency then 4 else 0,
          nullable,
          if !thirty then 0 else if Binary(d.kind) then 1 else if d.kind in {Memo, Gen} then 2 else 0,
          offset, if nullable then bit / 8 else 0, if nullable then Pow2(bit % 8) else 0)
  }

  function ExpectedFields(ds: seq<FieldDef>, thirty: bool): seq<Field> {
    if ds == [] then []
    else
      var before := ds[..|ds| - 1];
      ExpectedFields(before, thirty)
      + [Expected(ds[|ds| - 1], thirty, 1 + Sizes(before, thirty), Nulls(before, thirty))]
  }

  /** The fields of a new table: those defined, and the null flags if any of them may be null. */
  function ExpectedAll(ds: seq<FieldDef>, thirty: bool): seq<Field> {
    var nulls := Nulls(ds, thirty);
    ExpectedFields(ds, thirty)
    + if nulls > 0
      then [Field(Upper(NULL_FLAGS), SYSTEM, NullBytes(nulls), 0, false, if thirty then 1 else 0,
                  1 + Sizes(ds, thirty), 0, 0)]
      else []
  }

  lemma {:induction false} UpperTwice(s: seq<Byte>)
    ensures Upper(Upper(s)) == Upper(s)
    ensures (forall i :: 0 <= i < |s| ==> s[i] != 0) ==> forall i :: 0 <= i < |s| ==> Upper(s)[i] != 0
  {
    if s != [] {
      UpperTwice(s[1..]);
      assert forall i :: 0 < i < |s| ==> Upper(s)[i] == Upper(s[1..])[i - 1] && s[1..][i - 1] == s[i];
    }
  }

  lemma {:induction false} UpToZeroPadded(name: seq<Byte>, n: nat)
    requires forall i :: 0 <= i < |name| ==> name[i] != 0
    ensures UpToZero(name + Zeros(n)) == name
  {
    if name == [] {
      assert name + Zeros(n) == Zeros(n);
    } else {
      assert (name + Zeros(n))[1..] == name[1..] + Zeros(n);
      UpToZeroPadded(name[1..], n);
    }
  }

  lemma {:induction false} ZerosPrefix(n: nat)
    requires n > 0
    ensures Zeros(n)[..n - 1] == Zeros(n - 1)
  {
  }

  /** A stored name is read back. */
  lemma {:induction false} NameRead(d: FieldDef)
    requires Terminated(d)
    ensures Upper(UpToZero(Padded(Fold(d.name))[..10])) == Fold(d.name)
  {
    var name := Fold(d.name);
    UpperTwice(Trim(d.name));
    ZerosPrefix(11 - |name|);
    assert Padded(name)[..10] == name + Zeros(10 - |name|);
    UpToZeroPadded(name, 10 - |name|);
  }

  lemma {:induction false} FlagBits(d: FieldDef)
    ensures Bit(Flags(d), 2) == d.nulls && Bit(Flags(d), 4) == Binary(d.kind)
  {
  }

  lemma {:induction false} JoinedLen(w: Word)
    ensures Join(w % 256, w / 256) == w
  {
  }

  lemma {:induction false} FieldRead(d: FieldDef, thirty: bool, raw: nat, offset: nat, bit: nat)
    requires Named(d) && (thirty || !OnlyThirty(d.kind))
    ensures FieldOf(FieldImage(d, thirty, raw), thirty, offset, bit) == Expected(d, thirty, offset, bit)
  {
    hide Fold, Padded, UpToZero, Upper, Zeros, Bit, Flags, Pow2, Offset, StartsWithEnd;
    var im := FieldImage(d, thirty, raw);
    assert im[..10] == im[..11][..10];
    NameRead(d);
    FlagBits(d);
    JoinedLen(d.len);
    LengthRead(d, thirty, raw);
  }

  lemma {:induction false} LengthRead(d: FieldDef, thirty: bool, raw: nat)
    requires |d.name| <= 10 && (thirty || !OnlyThirty(d.kind))
    ensures FieldLen(FieldImage(d, thirty, raw)) == Size(d, thirty) - 256 * LostOf(d)
  {
    hide Fold, Padded, Zeros, Offset, Flags;
    JoinedLen(d.len);
  }

  lemma {:induction false} WidthRead(d: FieldDef, thirty: bool, memo: bool, raw: nat)
    requires |d.name| <= 10 && (thirty || !OnlyThirty(d.kind))
    ensures ImageWidth(FieldImage(d, thirty, raw), Version(thirty, memo)) == Ok(Size(d, thirty) - 256 * LostOf(d))
  {
    hide Fold, Padded, Zeros, Offset, Flags;
    JoinedLen(d.len);
  }

  lemma {:induction false} NullsRead(nulls: nat, memo: bool, raw: nat, thirty: bool, offset: nat, bit: nat)
    requires NullBytes(nulls) < 256
    ensures FieldLen(NullImage(nulls, raw)) == NullBytes(nulls)
    ensures ImageWidth(NullImage(nulls, raw), Version(true, memo)) == Ok(NullBytes(nulls))
    ensures FieldOf(NullImage(nulls, raw), thirty, offset, bit)
         == Field(Upper(NULL_FLAGS), SYSTEM, NullBytes(nulls), 0, false, if thirty then 1 else 0, offset, 0, 0)
  {
    var im := NullImage(nulls, raw);
    assert im[..11][..10] == im[..10];
    assert Padded(NULL_FLAGS)[..10] == NULL_FLAGS;
    UpToZeroPadded(NULL_FLAGS, 0);
    assert NULL_FLAGS + Zeros(0) == NULL_FLAGS;
    assert UpToZero(NULL_FLAGS) == NULL_FLAGS;
  }

  lemma {:induction false} FlagRead(d: FieldDef, thirty: bool, raw: nat)
    requires |d.name| <= 10
    ensures Bit(FieldImage(d, thirty, raw)[18], 2) == d.nulls
  {
    hide Bit, Flags;
    FlagBits(d);
  }

  lemma {:induction false} Snoc(images: seq<Image>, im: Image, thirty: bool, version: Byte)
    ensures Widths(images + [im], version)
         == if Widths(images, version).Err? then Widths(images, version)
            else if ImageWidth(im, version).Err? then ImageWidth(im, version)
            else Ok(Widths(images, version).value + ImageWidth(im, version).value)
    ensures EndOffset(images + [im]) == EndOffset(images) + FieldLen(im)
    ensures NullCount(images + [im], thirty) == NullCount(images, thirty) + if thirty && Bit(im[18], 2) then 1 else 0
    ensures Parsed(images + [im], thirty)
         == Parsed(images, thirty) + [FieldOf(im, thirty, EndOffset(images), NullCount(images, thirty))]
  {
    hide ImageWidth, FieldLen, FieldOf, Bit;
    assert (images + [im])[..|images + [im]| - 1] == images;
  }

  lemma {:induction false} SnocImages(ds: seq<FieldDef>, thirty: bool)
    requires ShortNames(ds) && ds != []
    ensures var before, d := ds[..|ds| - 1], ds[|ds| - 1];
            FieldImages(ds, thirty) == FieldImages(before, thirty) + [FieldImage(d, thirty, Raw(before))]
  {
    hide FieldImage;
  }

  /** The images written for the fields, taken together. */
  lemma {:induction false} FieldsRead(ds: seq<FieldDef>, thirty: bool, memo: bool)
    requires ShortNames(ds)
    requires Compatible(ds, thirty) && forall i :: 0 <= i < |ds| ==> Named(ds[i])
    ensures Widths(FieldImages(ds, thirty), Version(thirty, memo)) == Ok(1 + Sizes(ds, thirty) - 256 * Lost(ds))
    ensures EndOffset(FieldImages(ds, thirty)) == 1 + Sizes(ds, thirty) - 256 * Lost(ds)
    ensures NullCount(FieldImages(ds, thirty), thirty) == Nulls(ds, thirty)
  {
    hide FieldImage, FieldImages, FieldOf, FieldLen, ImageWidth, Bit, Flags, LostOf, Widths, EndOffset, NullCount;
    hide Parsed;
    if ds == [] {
      NoFields(thirty, memo);
    } else {
      var before, d := ds[..|ds| - 1], ds[|ds| - 1];
      FieldsRead(before, thirty, memo);
      SnocImages(ds, thirty);
      Snoc(FieldImages(before, thirty), FieldImage(d, thirty, Raw(before)), thirty, Version(thirty, memo));
      WidthRead(d, thirty, memo, Raw(before));
      LengthRead(d, thirty, Raw(before));
      FlagRead(d, thirty, Raw(before));
    }
  }

  lemma {:induction false} NoFields(thirty: bool, memo: bool)
    ensures FieldImages([], thirty) == [] && Parsed([], thirty) == []
    ensures EndOffset([]) == 1 && NullCount([], thirty) == 0
    ensures Widths([], Version(thirty, memo)) == Ok(1)
  {
  }

  lemma {:induction false} FieldsParsed(ds: seq<FieldDef>, thirty: bool)
    requires ShortNames(ds)
    requires Compatible(ds, thirty) && (forall i :: 0 <= i < |ds| ==> Named(ds[i])) && Lost(ds) == 0
    ensures Parsed(FieldImages(ds, thirty), thirty) == ExpectedFields(ds, thirty)
  {
    hide FieldImage, FieldImages, FieldOf, FieldLen, ImageWidth, Bit, Flags, LostOf, Widths, EndOffset, NullCount;
    hide Parsed;
    hide Expected, Named, Sizes, Nulls;
    if ds == [] {
      NoFields(thirty, false);
    } else {
      var before, d := ds[..|ds| - 1], ds[|ds| - 1];
      FieldsParsed(before, thirty);
      FieldsRead(before, thirty, false);
      SnocImages(ds, thirty);
      Snoc(FieldImages(before, thirty), FieldImage(d, thirty, Raw(before)), thirty, Version(thirty, false));
      FieldRead(d, thirty, Raw(before), 1 + Sizes(before, thirty), Nulls(before, thirty));
    }
  }

  /** With the null flags' image, if there is one. */
  lemma {:induction false} ImagesRead(ds: seq<FieldDef>, thirty: bool, memo: bool)
    requires ShortNames(ds) && Compatible(ds, thirty) && NullBytes(Nulls(ds, thirty)) < 256
    requires forall i :: 0 <= i < |ds| ==> Named(ds[i])
    ensures Widths(Images(ds, thirty), Version(thirty, memo)) == Ok(Width(ds, thirty) - 256 * Lost(ds))
    ensures Lost(ds) == 0 ==> Parsed(Images(ds, thirty), thirty) == ExpectedAll(ds, thirty)
  {
    hide NullImage, FieldOf, FieldLen, ImageWidth, Bit, Raw, FieldImages, Widths, EndOffset, NullCount, Parsed;
    hide Sizes, Nulls, Lost, Compatible, Named, ExpectedFields;
    FieldsRead(ds, thirty, memo);
    if Lost(ds) == 0 { FieldsParsed(ds, thirty); }
    NoNulls(ds, thirty);
    var nulls := Nulls(ds, thirty);
    if nulls > 0 {
      NullsRead(nulls, memo, Raw(ds), thirty, 1 + Sizes(ds, thirty), nulls);
      Snoc(FieldImages(ds, thirty), NullImage(nulls, Raw(ds)), thirty, Version(thirty, memo));
    } else {
      assert Images(ds, thirty) == FieldImages(ds, thirty);
      assert ExpectedAll(ds, thirty) == ExpectedFields(ds, thirty);
    }
  }

  // ----- the offsets that are stored -----

  /** Four bytes, the lowest first, as a signed number. */
  function Signed(b: seq<Byte>): int
    requires |b| == 4
  {
    var b0: int, b1: int, b2: int, b3: int := b[0], b[1], b[2], b[3];
    var n := b0 + 0x100 * b1 + 0x1_0000 * b2 + 0x100_0000 * b3;
    if n < 0x8000_0000 then n else n - 0x1_0000_0000
  }

  lemma {:induction false} OffsetRead(off: nat)
    ensures var w := off % 65536;
            Signed(Offset(off)) == if w < 32768 then w else w - 65536
  {
  }

  lemma {:induction false} ImageOffset(name: seq<Byte>, letter: Byte, offset: nat, len: Byte, dec: Byte, flags: Byte)
    requires |name| <= 10
    ensures MakeImage(name, letter, offset, len, dec, flags)[12..16] == Offset(offset)
  {
    hide Padded, Offset, Zeros;
    var head, tail := Padded(name) + [letter], [len, dec, flags] + Zeros(13);
    assert MakeImage(name, letter, offset, len, dec, flags) == head + Offset(offset) + tail;
    assert |Offset(offset)| == 4 by { OffsetLen(offset); }
  }

  lemma {:induction false} OffsetLen(off: nat)
    ensures |Offset(off)| == 4
  {
  }

  lemma {:induction false} OffsetAt(ds: seq<FieldDef>, thirty: bool, i: nat)
    requires ShortNames(ds) && i < |Images(ds, thirty)|
    ensures i <= |ds| && Images(ds, thirty)[i][12..16] == Offset(Raw(ds[..i]))
  {
    hide MakeImage, FieldImages, Raw, Offset, Fold;
    if i < |ds| {
      FieldImagesAt(ds, thirty, i);
      var d := ds[i];
      ImageOffset(Fold(d.name), Letter(d.kind), Raw(ds[..i]), StoredLen(d, thirty), StoredDec(d), Flags(d));
    } else {
      assert ds[..i] == ds;
      ImageOffset(NULL_FLAGS, SYSTEM, Raw(ds), Low(NullBytes(Nulls(ds, thirty))), 0, 5);
    }
  }

  /** Every field takes up as many bytes as its definition says. */
  ghost predicate TrueLengths(ds: seq<FieldDef>, thirty: bool) {
    forall i :: 0 <= i < |ds| ==> ds[i].len == Size(ds[i], thirty)
  }

  lemma {:induction false} RawIs(ds: seq<FieldDef>, thirty: bool)
    requires TrueLengths(ds, thirty)
    ensures Raw(ds) == 1 + Sizes(ds, thirty)
  {
    hide Size;
    if ds != [] { RawIs(ds[..|ds| - 1], thirty); }
  }

  lemma {:induction false} EndRead(ds: seq<FieldDef>, thirty: bool)
    requires ShortNames(ds) && Compatible(ds, thirty)
    ensures EndOffset(FieldImages(ds, thirty)) == 1 + Sizes(ds, thirty) - 256 * Lost(ds)
  {
    hide FieldImage, FieldImages, FieldLen, LostOf;
    if ds == [] {
      NoFields(thirty, false);
    } else {
      var before, d := ds[..|ds| - 1], ds[|ds| - 1];
      EndRead(before, thirty);
      SnocImages(ds, thirty);
      Snoc(FieldImages(before, thirty), FieldImage(d, thirty, Raw(before)), thirty, Version(thirty, false));
      LengthRead(d, thirty, Raw(before));
    }
  }

  lemma {:induction false} SizesGrow(ds: seq<FieldDef>, thirty: bool, i: nat)
    requires i <= |ds|
    ensures Sizes(ds[..i], thirty) <= Sizes(ds, thirty)
  {
    hide Size;
    if i < |ds| {
      assert ds[..|ds| - 1][..i] == ds[..i];
      SizesGrow(ds[..|ds| - 1], thirty, i);
    } else {
      assert ds[..i] == ds;
    }
  }

  lemma {:induction false} ImagesBefore(ds: seq<FieldDef>, thirty: bool, i: nat)
    requires ShortNames(ds) && i <= |ds|
    ensures Images(ds, thirty)[..i] == FieldImages(ds[..i], thirty)
  {
    hide FieldImage;
    forall k | 0 <= k < i ensures Images(ds, thirty)[k] == FieldImages(ds[..i], thirty)[k] {
      FieldImagesAt(ds, thirty, k);
      FieldImagesAt(ds[..i], thirty, k);
      assert ds[..i][..k] == ds[..k];
    }
  }

  /** Where the fields before it take up the bytes their definitions say, the offset that is stored with a field is
      the one that opening gives it if and only if it is below 32768 and no number before it is longer than its byte. */
  lemma {:induction false} OffsetsStored(ds: seq<FieldDef>, thirty: bool, i: nat)
    requires Creatable(ds, thirty) && i < |Images(ds, thirty)|
    requires i <= |ds| ==> TrueLengths(ds[..i], thirty)
    ensures i <= |ds|
    ensures Signed(Images(ds, thirty)[i][12..16]) == Parsed(Images(ds, thirty), thirty)[i].offset
            <==> 1 + Sizes(ds[..i], thirty) < 32768 && Lost(ds[..i]) == 0
  {
    hide Images, Signed, Parsed, EndOffset, Sizes, Lost, Raw, Offset, HeaderLength, FieldImages, TrueLengths, Nulls;
    hide FieldLen;
    OffsetAt(ds, thirty, i);
    Contiguous(Images(ds, thirty), thirty, i);
    ImagesBefore(ds, thirty, i);
    EndRead(ds[..i], thirty);
    RawIs(ds[..i], thirty);
    SizesGrow(ds, thirty, i);
    OffsetRead(Raw(ds[..i]));
    LostFits(ds[..i], thirty);
  }

  /** A file of an older version has no field of the types that only a Visual FoxPro file may have. */
  lemma {:induction false} OldLetters(images: seq<Image>, version: Byte, i: nat)
    requires Widths(images, version).Ok? && BeforeThirty(version) && i < |images|
    ensures images[i][11] !in {Letter(Double), Letter(FloatBin), Letter(Currency), Letter(DateTime),
                               Letter(DateTimeMilli), SYSTEM}
  {
    if i < |images| - 1 { OldLetters(images[..|images| - 1], version, i); }
  }

  lemma {:induction false} LostFits(ds: seq<FieldDef>, thirty: bool)
    ensures 256 * Lost(ds) <= Sizes(ds, thirty)
  {
    if ds != [] { LostFits(ds[..|ds| - 1], thirty); }
  }

  lemma {:induction false} ImagesFound(info: seq<Byte>, images: seq<Image>, n: nat)
    requires n <= |images| && Flat(images) <= info
    ensures ImagesOf(info, n) == images[..n]
  {
    hide Flat;
    if n > 0 {
      ImagesFound(info, images, n - 1);
      FlatAt(images, n - 1);
      assert info[IMAGE * (n - 1)..IMAGE * n] == Flat(images)[IMAGE * (n - 1)..IMAGE * n];
      assert images[..n] == images[..n - 1] + [images[n - 1]];
    }
  }

  /** No image starts with the byte that ends the fields. */
  lemma {:induction false} NoEarlyEnd(ds: seq<FieldDef>, thirty: bool, i: nat)
    requires ShortNames(ds)
    requires (forall j :: 0 <= j < |ds| ==> Named(ds[j])) && i < |Images(ds, thirty)|
    ensures Images(ds, thirty)[i][0] != END_OF_FIELDS
  {
    hide FieldImage, NullImage, Named;
    if i < |ds| {
      FieldImageAt(ds, thirty, i);
    } else {
      NullStart(Nulls(ds, thirty), Raw(ds));
    }
  }

  lemma {:induction false} NoEarlyEndIn(ds: seq<FieldDef>, thirty: bool, info: seq<Byte>, i: nat)
    requires ShortNames(ds)
    requires (forall j :: 0 <= j < |ds| ==> Named(ds[j])) && i < |Images(ds, thirty)|
    requires Flat(Images(ds, thirty)) <= info
    ensures info[IMAGE * i] != END_OF_FIELDS
  {
    hide Flat, Images, Named;
    NoEarlyEnd(ds, thirty, i);
    FlatAt(Images(ds, thirty), i);
    assert info[IMAGE * i] == Flat(Images(ds, thirty))[IMAGE * i..IMAGE * (i + 1)][0];
  }

  lemma {:induction false} NullStart(nulls: nat, raw: nat)
    ensures NullImage(nulls, raw)[0] == NULL_FLAGS[0]
  {
    var im := NullImage(nulls, raw);
    assert im[0] == im[..11][0] == Padded(NULL_FLAGS)[..10][0];
  }

  lemma {:induction false} FieldImageAt(ds: seq<FieldDef>, thirty: bool, i: nat)
    requires ShortNames(ds)
    requires (forall j :: 0 <= j < |ds| ==> Named(ds[j])) && i < |ds|
    ensures FieldImages(ds, thirty)[i][0] != END_OF_FIELDS
  {
    hide FieldImage, Named;
    if i < |ds| - 1 {
      FieldImageAt(ds[..|ds| - 1], thirty, i);
    } else {
      FieldStart(ds[i], thirty, Raw(ds[..i]));
    }
  }

  lemma {:induction false} FieldStart(d: FieldDef, thirty: bool, raw: nat)
    requires Named(d)
    ensures FieldImage(d, thirty, raw)[0] != END_OF_FIELDS
  {
    var im, name := FieldImage(d, thirty, raw), Padded(Fold(d.name));
    assert im[0] == im[..11][0] == name[0];
    if Fold(d.name) != [] { assert name[0] == name[..|Fold(d.name)|][0]; }
  }

  ghost predicate Creatable(ds: seq<FieldDef>, thirty: bool) {
    && Compatible(ds, thirty) && 1 + Sizes(ds, thirty) < 65535
    && HeaderLength(|ds|, Nulls(ds, thirty), thirty) + 1 < 65535 && ShortNames(ds)
  }

  /** Where the pieces of a new header lie. */
  lemma {:induction false} Pieces(ds: seq<FieldDef>, thirty: bool, memo: bool, stamp: Stamp)
    requires Creatable(ds, thirty)
    ensures var file, images := Printed(ds, thirty, memo, stamp), Images(ds, thirty);
            var h := HeaderLength(|ds|, Nulls(ds, thirty), thirty);
            && 32 < h <= |file| && |images| == |ds| + (if Nulls(ds, thirty) > 0 then 1 else 0)
            && IMAGE * |images| < h - 32
            && file[0] == Version(thirty, memo) && file[4..8] == [0, 0, 0, 0]
            && Word16(file[8..10]) == h && Word16(file[10..12]) == Width(ds, thirty) % 65536
            && file[28] == (if thirty && memo then 2 else 0)
            && Flat(images) <= file[32..h] && file[32..h][IMAGE * |images|] == END_OF_FIELDS
    ensures NullBytes(Nulls(ds, thirty)) < 256
  {
    hide Sizes, Nulls, Flat, Zeros, FieldImages, NullImage, Compatible, Raw, Version;
    NoNulls(ds, thirty);
    var file, images := Printed(ds, thirty, memo, stamp), Images(ds, thirty);
    var h := HeaderLength(|ds|, Nulls(ds, thirty), thirty);
    var fixed := Fixed(thirty, memo, stamp, h, Width(ds, thirty) % 65536);
    assert file == fixed + (Flat(images) + Tail(thirty));
    assert file[4..8] == fixed[4..8] && file[8..10] == fixed[8..10] && file[10..12] == fixed[10..12];
    JoinedLen(h);
    JoinedLen(Width(ds, thirty) % 65536);
    assert file[32..h] == (Flat(images) + Tail(thirty))[..h - 32];
    assert file[32..h][..IMAGE * |images|] == Flat(images);
  }

  lemma {:induction false} WidthFits(ds: seq<FieldDef>, thirty: bool)
    requires Creatable(ds, thirty) && NullBytes(Nulls(ds, thirty)) < 256
    ensures var found := Width(ds, thirty) - 256 * Lost(ds);
            found == Width(ds, thirty) % 65536 && found != 0 <==> Width(ds, thirty) < 65536 && Lost(ds) == 0
  {
    hide Sizes, Nulls, Lost, Compatible;
    LostFits(ds, thirty);
  }

  /** The length of a new file, where it is checked: its end mark counts as a record where records have one byte. */
  lemma {:induction false} NewLength(ds: seq<FieldDef>, thirty: bool, memo: bool, stamp: Stamp, exclusive: bool)
    requires Creatable(ds, thirty) && Width(ds, thirty) % 65536 != 0
    ensures var file := Printed(ds, thirty, memo, stamp);
            && |file| >= 32 && Word16(file[8..10]) <= |file| && Word16(file[10..12]) == Width(ds, thirty) % 65536
            && Supported(file) && VersionOf(file) == Version(thirty, memo)
            && (LengthOk(file, exclusive) <==> !(exclusive && !thirty && Width(ds, thirty) % 65536 == 1))
  {
    hide Sizes, Nulls, Printed, Compatible, Width, HeaderLength, LengthOk, Supported, VersionOf, Images, Flat;
    Pieces(ds, thirty, memo, stamp);
    NewSize(ds, thirty, memo, stamp);
    var file := Printed(ds, thirty, memo, stamp);
    NewVersion(file, thirty, memo);
    NewCount(file, exclusive);
  }

  lemma {:induction false} NewVersion(file: seq<Byte>, thirty: bool, memo: bool)
    requires |file| >= 32 && file[0] == Version(thirty, memo)
    ensures Supported(file) && VersionOf(file) == Version(thirty, memo) && !Compressed(file)
  {
  }

  lemma {:induction false} NewCount(file: seq<Byte>, exclusive: bool)
    requires |file| >= 32 && Word16(file[8..10]) <= |file| <= Word16(file[8..10]) + 1 && Word16(file[10..12]) != 0
    requires file[4..8] == [0, 0, 0, 0] && !Compressed(file)
    ensures LengthOk(file, exclusive) <==> !(exclusive && |file| > Word16(file[8..10]) && Word16(file[10..12]) == 1)
  {
    hide Word16;
    assert file[4] == file[4..8][0] && file[5] == file[4..8][1] && file[6] == file[4..8][2] && file[7] == file[4..8][3];
    Quotient(|file| - Word16(file[8..10]), Word16(file[10..12]));
  }

  lemma {:induction false} Quotient(n: nat, w: nat)
    requires n <= 1 && w > 0
    ensures n / w == if n == 1 && w == 1 then 1 else 0
  {
  }

  lemma {:induction false} NewSize(ds: seq<FieldDef>, thirty: bool, memo: bool, stamp: Stamp)
    requires Creatable(ds, thirty)
    ensures |Printed(ds, thirty, memo, stamp)|
         == HeaderLength(|ds|, Nulls(ds, thirty), thirty) + if thirty then 0 else 1
  {
    hide Sizes, Nulls, Flat, FieldImages, NullImage, Compatible, Fixed, Raw;
    NoNulls(ds, thirty);
  }

  /** The number of fields found in a new header is the number of images before the first that is taken for the
      end of them. */
  lemma {:induction false} Counted(ds: seq<FieldDef>, thirty: bool, stamp: Stamp, exclusive: bool, n: nat)
    requires Creatable(ds, thirty) && Opens(Printed(ds, thirty, HasMemo(ds), stamp), exclusive, n)
    ensures n <= |Images(ds, thirty)|
    ensures n == |Images(ds, thirty)| <==>
            forall i :: 0 <= i < |Images(ds, thirty)| ==> Images(ds, thirty)[i][0] != END_OF_FIELDS
  {
    hide Flat, Images, Printed, Compatible, Sizes, Nulls, Widths, ImagesOf, HasMemo, LengthOk;
    Pieces(ds, thirty, HasMemo(ds), stamp);
    var file, images := Printed(ds, thirty, HasMemo(ds), stamp), Images(ds, thirty);
    var info := file[32..Word16(file[8..10])];
    forall i | 0 <= i < |images| ensures info[IMAGE * i] == images[i][0] {
      FlatAt(images, i);
      assert info[IMAGE * i] == Flat(images)[IMAGE * i..IMAGE * (i + 1)][0];
    }
  }

  lemma {:induction false} OpensAt(ds: seq<FieldDef>, thirty: bool, stamp: Stamp, exclusive: bool)
    requires Creatable(ds, thirty) && forall i :: 0 <= i < |ds| ==> Named(ds[i])
    ensures Opens(Printed(ds, thirty, HasMemo(ds), stamp), exclusive, |Images(ds, thirty)|)
            <==> Width(ds, thirty) < 65536 && Lost(ds) == 0 && !(exclusive && !thirty && Width(ds, thirty) == 1)
  {
    hide Flat, Images, Printed, Named, Sizes, Nulls, Widths, Compatible, Lost, Width, NullBytes, HasMemo, LengthOk;
    hide Version, Supported, HeaderLength, Parsed, ImagesOf;
    Pieces(ds, thirty, HasMemo(ds), stamp);
    WidthFits(ds, thirty);
    ImagesRead(ds, thirty, HasMemo(ds));
    if Width(ds, thirty) % 65536 != 0 { NewLength(ds, thirty, HasMemo(ds), stamp, exclusive); }
    var file, images := Printed(ds, thirty, HasMemo(ds), stamp), Images(ds, thirty);
    var info := file[32..Word16(file[8..10])];
    ImagesFound(info, images, |images|);
    assert images[..|images|] == images;
    forall i | 0 <= i < |images| ensures info[IMAGE * i] != END_OF_FIELDS {
      NoEarlyEndIn(ds, thirty, info, i);
    }
  }

  /** What opening is to give back. */
  function Defined(ds: seq<FieldDef>, thirty: bool): Table {
    Table(Version(thirty, HasMemo(ds)), HeaderLength(|ds|, Nulls(ds, thirty), thirty), Width(ds, thirty), HasMemo(ds),
          ExpectedAll(ds, thirty))
  }

  /** A new header of fields none of whose names ends them: it opens in one way, and gives them all back. */
  lemma {:induction false} OpensAsDefined(ds: seq<FieldDef>, thirty: bool, stamp: Stamp, exclusive: bool, n: nat)
    requires Creatable(ds, thirty) && forall i :: 0 <= i < |ds| ==> Named(ds[i])
    requires Opens(Printed(ds, thirty, HasMemo(ds), stamp), exclusive, n)
    ensures n == |Images(ds, thirty)|
    ensures Opened(Printed(ds, thirty, HasMemo(ds), stamp), n) == Defined(ds, thirty)
  {
    hide Flat, Images, Printed, Named, Sizes, Nulls, Widths, Compatible, Lost, Width, NullBytes, HasMemo, Opens, Parsed;
    hide ExpectedAll, LengthOk;
    var memo := HasMemo(ds);
    var file, images := Printed(ds, thirty, memo, stamp), Images(ds, thirty);
    forall i | 0 <= i < |images| ensures images[i][0] != END_OF_FIELDS { NoEarlyEnd(ds, thirty, i); }
    Counted(ds, thirty, stamp, exclusive, n);
    OpensAt(ds, thirty, stamp, exclusive);
    Pieces(ds, thirty, memo, stamp);
    ImagesRead(ds, thirty, memo);
    var info := file[32..Word16(file[8..10])];
    ImagesFound(info, images, |images|);
    assert images[..|images|] == images;
  }

  lemma {:induction false} EndsEarly(ds: seq<FieldDef>, thirty: bool, i: nat)
    requires ShortNames(ds) && i < |ds| && StartsWithEnd(ds[i])
    ensures i < |Images(ds, thirty)| && Images(ds, thirty)[i][0] == END_OF_FIELDS
  {
    hide FieldImage, NullImage;
    var n := |ds| - 1;
    FieldImagesAt(ds, thirty, i);
    var im, name := FieldImage(ds[i], thirty, Raw(ds[..i])), Fold(ds[i].name);
    FieldImageName(ds[i], thirty, Raw(ds[..i]));
    assert im[0] == im[..11][0] == Padded(name)[..|name|][0];
  }

  lemma {:induction false} FieldImageName(d: FieldDef, thirty: bool, raw: nat)
    requires |d.name| <= 10
    ensures FieldImage(d, thirty, raw)[..11] == Padded(Fold(d.name))
  {
  }

  lemma {:induction false} FieldImagesAt(ds: seq<FieldDef>, thirty: bool, i: nat)
    requires ShortNames(ds) && i < |ds|
    ensures FieldImages(ds, thirty)[i] == FieldImage(ds[i], thirty, Raw(ds[..i]))
  {
    hide FieldImage;
    if i < |ds| - 1 {
      assert ds[..|ds| - 1][..i] == ds[..i];
      FieldImagesAt(ds[..|ds| - 1], thirty, i);
    }
  }

  /** What is too much for a new header to be opened again: records too wide for the 16 bits their width is kept
      in, null flags included; a number longer than its byte; a name that starts with the byte that ends the
      fields; and, where the length of the file is checked, an end mark that is as long as a record. */
  ghost predicate ReadsBack(ds: seq<FieldDef>, thirty: bool, exclusive: bool) {
    && Width(ds, thirty) < 65536 && Lost(ds) == 0 && (forall i :: 0 <= i < |ds| ==> !StartsWithEnd(ds[i]))
    && !(exclusive && !thirty && Width(ds, thirty) == 1)
  }

  /** The file opens, and as this table. */
  ghost predicate OpensAs(file: seq<Byte>, exclusive: bool, table: Table) {
    exists n :: OpensWith(file, exclusive, n, table)
  }

  ghost predicate OpensWith(file: seq<Byte>, exclusive: bool, n: nat, table: Table) {
    Opens(file, exclusive, n) && Opened(file, n) == table
  }

  /** A created header can be opened and gives back every field that was defined exactly when none of this is the
      case; and if no name starts with that byte, it gives back just that or does not open. */
  lemma {:induction false} RoundTrip(ds: seq<FieldDef>, thirty: bool, stamp: Stamp, exclusive: bool)
    requires Creatable(ds, thirty) && forall i :: 0 <= i < |ds| ==> Terminated(ds[i])
    ensures OpensAs(Printed(ds, thirty, HasMemo(ds), stamp), exclusive, Defined(ds, thirty))
            <==> ReadsBack(ds, thirty, exclusive)
    ensures (forall i :: 0 <= i < |ds| ==> !StartsWithEnd(ds[i])) ==>
              var file := Printed(ds, thirty, HasMemo(ds), stamp);
              (exists n :: Opens(file, exclusive, n)) ==> OpensAs(file, exclusive, Defined(ds, thirty))
  {
    hide Printed, Images, Sizes, Nulls, Compatible, Lost, Width, HasMemo, Parsed, StartsWithEnd, Opened, Opens, Defined;
    var file := Printed(ds, thirty, HasMemo(ds), stamp);
    if forall i :: 0 <= i < |ds| ==> !StartsWithEnd(ds[i]) {
      OpensAt(ds, thirty, stamp, exclusive);
      forall n | Opens(file, exclusive, n) ensures n == |Images(ds, thirty)| {
        OpensAsDefined(ds, thirty, stamp, exclusive, n);
      }
      if Opens(file, exclusive, |Images(ds, thirty)|) {
        OpensAsDefined(ds, thirty, stamp, exclusive, |Images(ds, thirty)|);
        assert OpensWith(file, exclusive, |Images(ds, thirty)|, Defined(ds, thirty));
      }
    } else {
      var i :| 0 <= i < |ds| && StartsWithEnd(ds[i]);
      EndsEarly(ds, thirty, i);
      forall n | Opens(file, exclusive, n) ensures n != |Images(ds, thirty)| {
        Counted(ds, thirty, stamp, exclusive, n);
      }
      if OpensAs(file, exclusive, Defined(ds, thirty)) {
        var n :| OpensWith(file, exclusive, n, Defined(ds, thirty));
        FewerFields(ds, thirty, stamp, exclusive, n);
      }
    }
  }

  lemma {:induction false} FewerFields(ds: seq<FieldDef>, thirty: bool, stamp: Stamp, exclusive: bool, n: nat)
    requires Creatable(ds, thirty) && Opens(Printed(ds, thirty, HasMemo(ds), stamp), exclusive, n)
    ensures |Opened(Printed(ds, thirty, HasMemo(ds), stamp), n).fields| == n
    ensures |Defined(ds, thirty).fields| == |Images(ds, thirty)|
  {
    hide Printed, FieldImages, Widths, ImagesOf, LengthOk;
    ExpectedCount(ds, thirty);
  }

  lemma {:induction false} ExpectedCount(ds: seq<FieldDef>, thirty: bool)
    ensures |ExpectedFields(ds, thirty)| == |ds|
  {
    hide Expected;
    if ds != [] { ExpectedCount(ds[..|ds| - 1], thirty); }
  }

  /** A number of 256 bytes: its length keeps none of them. */
  lemma {:induction false} LongNumber()
    ensures var ds := [FieldDef(['A' as int], Num, 256, 0, false)];
            Creatable(ds, false) && Width(ds, false) == 257 && Lost(ds) == 1 && !ReadsBack(ds, false, false)
  {
    Alone(FieldDef(['A' as int], Num, 256, 0, false), false);
  }

  /** A field whose name is a carriage return: reading ends before it. */
  lemma {:induction false} NamedAsEnd()
    ensures var ds := [FieldDef([END_OF_FIELDS], Log, 1, 0, false)];
            Creatable(ds, false) && Width(ds, false) == 2 && Lost(ds) == 0 && !ReadsBack(ds, false, false)
  {
    var d := FieldDef([END_OF_FIELDS], Log, 1, 0, false);
    Alone(d, false);
    assert Upper([END_OF_FIELDS]) == [END_OF_FIELDS];
    assert StartsWithEnd(d);
  }

  /** A field of no length: the end mark is as long as a record, and the file cannot be opened alone. */
  lemma {:induction false} OneByteRecord()
    ensures var ds := [FieldDef(['A' as int], Str, 0, 0, false)];
            && Creatable(ds, false) && Width(ds, false) == 1
            && ReadsBack(ds, false, false) && !ReadsBack(ds, false, true)
  {
    var d := FieldDef(['A' as int], Str, 0, 0, false);
    Alone(d, false);
    assert Upper(['A' as int]) == ['A' as int];
    assert !StartsWithEnd(d);
  }

  lemma {:induction false} Alone(d: FieldDef, thirty: bool)
    ensures Sizes([d], thirty) == Size(d, thirty) && Lost([d]) == LostOf(d)
    ensures Nulls([d], thirty) == if thirty && d.nulls then 1 else 0
  {
    assert [d][..0] == [];
  }

  function Logs(n: nat): (ds: seq<FieldDef>)
    ensures |ds| == n
  {
    if n == 0 then [] else Logs(n - 1) + [FieldDef(['A' as int], Log, 1, 0, true)]
  }

  lemma {:induction false} LogsSize(n: nat)
    ensures Sizes(Logs(n), true) == n && Nulls(Logs(n), true) == n && Lost(Logs(n)) == 0
  {
    if n > 0 {
      LogsSize(n - 1);
      OneMore(Logs(n - 1), FieldDef(['A' as int], Log, 1, 0, true));
    }
  }

  lemma {:induction false} OneMore(ds: seq<FieldDef>, d: FieldDef)
    ensures Sizes(ds + [d], true) == Sizes(ds, true) + Size(d, true)
    ensures Nulls(ds + [d], true) == Nulls(ds, true) + if d.nulls then 1 else 0
    ensures Lost(ds + [d]) == Lost(ds) + LostOf(d)
  {
    hide Size, LostOf;
    assert (ds + [d])[..|ds + [d]| - 1] == ds;
  }

  /** A table of nine nullable fields that is created without complaint and whose records are one byte too
      wide for their width to be kept. */
  lemma {:induction false} TooWide() returns (ds: seq<FieldDef>)
    ensures Creatable(ds, true) && Lost(ds) == 0 && Width(ds, true) == 65536
  {
    var text := FieldDef(['A' as int], Str, 65525, 0, true);
    LogsSize(8);
    OneMore(Logs(8), text);
    ds := Logs(8) + [text];
  }
}
