/** The canonical binary primitives.

    Every primitive comes as a pair: an encoder, which fails on a value that has no encoding, and a
    parser, which takes a prefix off a byte string and fails where the reader raises. One law per
    pair says that they are inverse in both directions: the parser returns a value exactly when
    the input starts with that value's encoding. Class `CanonicalReader` is the mutable cursor the
    node uses; each of its reads is proved to follow the corresponding parser. */
module Encoding {
  import opened Types

  // Unsigned integers, most significant byte first

  function Pow256(width: nat): (p: nat)
    ensures p >= 1
  {
    if width == 0 then 1 else 256 * Pow256(width - 1)
  }

  function BigEndian(n: nat, width: nat): (b: Bytes)
    ensures |b| == width
  {
    if width == 0 then [] else BigEndian(n / 256, width - 1) + [n % 256]
  }

  function FromBigEndian(b: Bytes): (n: nat)
    ensures n < Pow256(|b|)
  {
    if b == [] then 0 else 256 * FromBigEndian(b[..|b| - 1]) + b[|b| - 1]
  }

  /** The widths used for targets and for cumulative work. */
  lemma Widths()
    ensures Pow256(32) == MAX_TARGET + 1
    ensures Pow256(40) == 0x1_0000_0000_0000_0000 * (MAX_TARGET + 1)
  {
    assert Pow256(8) == 0x1_0000_0000_0000_0000;
    assert Pow256(16) == 0x1_0000_0000_0000_0000 * Pow256(8);
    assert Pow256(24) == 0x1_0000_0000_0000_0000 * Pow256(16);
    assert Pow256(32) == 0x1_0000_0000_0000_0000 * Pow256(24);
  }

  lemma {:induction false} NumberSurvives(n: nat, width: nat)
    requires n < Pow256(width)
    ensures FromBigEndian(BigEndian(n, width)) == n
  {
    if width > 0 {
      NumberSurvives(n / 256, width - 1);
      assert BigEndian(n, width)[..width - 1] == BigEndian(n / 256, width - 1);
    }
  }

  lemma {:induction false} BytesSurvive(b: Bytes)
    ensures BigEndian(FromBigEndian(b), |b|) == b
  {
    if b != [] {
      BytesSurvive(b[..|b| - 1]);
    }
  }

  function EncodeUnsigned(value: int, width: nat): Option<Bytes> {
    if 0 <= value < Pow256(width) then Some(BigEndian(value, width)) else None
  }

  function EncodeU8(value: int): Option<Bytes> {
    EncodeUnsigned(value, 1)
  }

  function EncodeU16(value: int): Option<Bytes> {
    EncodeUnsigned(value, 2)
  }

  function EncodeU32(value: int): Option<Bytes> {
    EncodeUnsigned(value, 4)
  }

  function EncodeU64(value: int): Option<Bytes> {
    EncodeUnsigned(value, 8)
  }

  /** The four widths refuse exactly what lies outside their range. */
  lemma EncodableRanges(value: int)
    ensures EncodeU8(value).Some? <==> 0 <= value <= 0xFF
    ensures EncodeU16(value).Some? <==> 0 <= value <= U16_MAX
    ensures EncodeU32(value).Some? <==> 0 <= value <= U32_MAX
    ensures EncodeU64(value).Some? <==> 0 <= value <= U64_MAX
  {
    assert Pow256(2) == 0x1_0000 && Pow256(4) == 0x1_0000_0000;
    assert Pow256(8) == 0x1_0000_0000_0000_0000;
  }

  /** The most significant byte comes first. */
  lemma FourBytes(a: byte, b: byte, c: byte, d: byte)
    ensures BigEndian(((a * 256 + b) * 256 + c) * 256 + d, 4) == [a, b, c, d]
  {
    assert BigEndian(a, 1) == BigEndian(0, 0) + [a];
    assert BigEndian(a * 256 + b, 2) == BigEndian(a, 1) + [b];
    assert BigEndian((a * 256 + b) * 256 + c, 3) == BigEndian(a * 256 + b, 2) + [c];
  }

  // Byte fields, texts and sequences

  function Ascii(s: string): (b: Bytes)
    requires forall i :: 0 <= i < |s| ==> s[i] as int < 128
    ensures |b| == |s|
  {
    seq(|s|, i requires 0 <= i < |s| => s[i] as byte)
  }

  function EncodeBytes(value: Bytes): Option<Bytes> {
    var length :- EncodeU32(|value|);
    Some(length + value)
  }

  /** A byte field is its length in four bytes and then its bytes. */
  lemma BytesLayout(value: Bytes, a: byte, b: byte, c: byte, d: byte)
    requires |value| == ((a * 256 + b) * 256 + c) * 256 + d
    ensures EncodeBytes(value) == Some([a, b, c, d] + value)
  {
    EncodableRanges(|value|);
    FourBytes(a, b, c, d);
  }

  /** Which byte strings are UTF-8, and normalization form C as it acts on them. */
  datatype Unicode = Unicode(utf8: Bytes -> bool, nfc: Bytes -> Bytes) {
    predicate Canonical(text: Bytes) {
      utf8(text) && nfc(text) == text
    }
  }

  function EncodeText(u: Unicode, text: Bytes): Option<Bytes> {
    EncodeBytes(u.nfc(text))
  }

  function EncodeItems(items: seq<Bytes>): Option<Bytes> {
    if items == [] then Some([])
    else
      var first :- EncodeBytes(items[0]);
      var others :- EncodeItems(items[1..]);
      Some(first + others)
  }

  function EncodeSequence(items: seq<Bytes>): Option<Bytes> {
    var count :- EncodeU32(|items|);
    var body :- EncodeItems(items);
    Some(count + body)
  }

  // Parsers

  /** What a parser read, and what it left. */
  datatype Read<+T> = Read(value: T, rest: Bytes)

  function ParseRaw(length: nat, s: Bytes): (r: Option<Read<Bytes>>)
    ensures r.Some? ==> |r.value.value| == length
  {
    if length > |s| then None else Some(Read(s[..length], s[length..]))
  }

  function ParseUnsigned(width: nat, s: Bytes): Option<Read<nat>> {
    var raw :- ParseRaw(width, s);
    Some(Read(FromBigEndian(raw.value), raw.rest))
  }

  predicate Within(n: nat, limit: Option<nat>) {
    limit.Some? ==> n <= limit.value
  }

  function ParseBytes(limit: Option<nat>, s: Bytes): (r: Option<Read<Bytes>>)
    ensures r.Some? ==> Within(|r.value.value|, limit)
  {
    var length :- ParseUnsigned(4, s);
    if !Within(length.value, limit) then None else ParseRaw(length.value, length.rest)
  }

  function ParseText(u: Unicode, limit: Option<nat>, s: Bytes): (r: Option<Read<Bytes>>)
    ensures r.Some? ==> Within(|r.value.value|, limit)
  {
    var text :- ParseBytes(limit, s);
    if u.Canonical(text.value) then Some(text) else None
  }

  function ParseItems(count: nat, itemLimit: Option<nat>, s: Bytes): Option<Read<seq<Bytes>>> {
    if count == 0 then Some(Read([], s))
    else
      var first :- ParseBytes(itemLimit, s);
      var others :- ParseItems(count - 1, itemLimit, first.rest);
      Some(Read([first.value] + others.value, others.rest))
  }

  function ParseSequence(limit: Option<nat>, itemLimit: Option<nat>, s: Bytes): Option<Read<seq<Bytes>>> {
    var count :- ParseUnsigned(4, s);
    if !Within(count.value, limit) then None else ParseItems(count.value, itemLimit, count.rest)
  }

  // The laws: parsing succeeds with a value exactly on that value's encoding

  lemma UnsignedLaw(width: nat, s: Bytes, n: int, rest: Bytes)
    ensures ParseUnsigned(width, s) == Some(Read(n, rest))
       <==> EncodeUnsigned(n, width).Some? && s == EncodeUnsigned(n, width).value + rest
  {
    if ParseUnsigned(width, s) == Some(Read(n, rest)) {
      BytesSurvive(s[..width]);
    }
    if EncodeUnsigned(n, width).Some? && s == EncodeUnsigned(n, width).value + rest {
      NumberSurvives(n, width);
      assert s[..width] == BigEndian(n, width) && s[width..] == rest;
    }
  }

  lemma BytesLaw(limit: Option<nat>, s: Bytes, value: Bytes, rest: Bytes)
    ensures ParseBytes(limit, s) == Some(Read(value, rest))
       <==> && Within(|value|, limit) && EncodeBytes(value).Some?
            && s == EncodeBytes(value).value + rest
  {
    hide Pow256, BigEndian, FromBigEndian, EncodeUnsigned;
    if ParseBytes(limit, s) == Some(Read(value, rest)) {
      var length := ParseUnsigned(4, s).value;
      UnsignedLaw(4, s, length.value, length.rest);
      assert length.rest == value + rest;
    }
    if Within(|value|, limit) && EncodeBytes(value).Some? && s == EncodeBytes(value).value + rest {
      assert s == EncodeU32(|value|).value + (value + rest);
      UnsignedLaw(4, s, |value|, value + rest);
    }
  }

  lemma TextLaw(u: Unicode, limit: Option<nat>, s: Bytes, text: Bytes, rest: Bytes)
    ensures ParseText(u, limit, s) == Some(Read(text, rest))
       <==> && u.Canonical(text) && Within(|text|, limit) && EncodeText(u, text).Some?
            && s == EncodeText(u, text).value + rest
  {
    BytesLaw(limit, s, text, rest);
  }

  ghost predicate AllWithin(items: seq<Bytes>, limit: Option<nat>) {
    forall i :: 0 <= i < |items| ==> Within(|items[i]|, limit)
  }

  lemma {:induction false} ItemsLaw(count: nat, limit: Option<nat>, s: Bytes, items: seq<Bytes>, rest: Bytes)
    ensures ParseItems(count, limit, s) == Some(Read(items, rest))
       <==> && |items| == count && AllWithin(items, limit) && EncodeItems(items).Some?
            && s == EncodeItems(items).value + rest
    decreases count
  {
    hide EncodeBytes, ParseBytes, Within;
    if count > 0 {
      if ParseItems(count, limit, s) == Some(Read(items, rest)) {
        var first := ParseBytes(limit, s).value;
        BytesLaw(limit, s, first.value, first.rest);
        ItemsLaw(count - 1, limit, first.rest, items[1..], rest);
        assert items == [first.value] + items[1..];
        assert s == EncodeItems(items).value + rest;
      }
      if |items| == count && AllWithin(items, limit) && EncodeItems(items).Some? &&
         s == EncodeItems(items).value + rest {
        var body := EncodeItems(items[1..]).value;
        assert s == EncodeBytes(items[0]).value + (body + rest);
        BytesLaw(limit, s, items[0], body + rest);
        ItemsLaw(count - 1, limit, body + rest, items[1..], rest);
        assert items == [items[0]] + items[1..];
      }
    } else {
      assert [] + rest == rest;
    }
  }

  lemma SequenceLaw(limit: Option<nat>, itemLimit: Option<nat>, s: Bytes, items: seq<Bytes>, rest: Bytes)
    ensures ParseSequence(limit, itemLimit, s) == Some(Read(items, rest))
       <==> && Within(|items|, limit) && AllWithin(items, itemLimit) && EncodeSequence(items).Some?
            && s == EncodeSequence(items).value + rest
  {
    hide EncodeUnsigned, ParseUnsigned, EncodeItems, ParseItems, Within;
    if ParseSequence(limit, itemLimit, s) == Some(Read(items, rest)) {
      var count := ParseUnsigned(4, s).value;
      UnsignedLaw(4, s, count.value, count.rest);
      ItemsLaw(count.value, itemLimit, count.rest, items, rest);
      assert s == EncodeSequence(items).value + rest;
    }
    if Within(|items|, limit) && AllWithin(items, itemLimit) && EncodeSequence(items).Some? &&
       s == EncodeSequence(items).value + rest {
      var tail := EncodeItems(items).value + rest;
      assert s == EncodeU32(|items|).value + tail;
      UnsignedLaw(4, s, |items|, tail);
      ItemsLaw(|items|, itemLimit, tail, items, rest);
    }
  }

  // The laws one field at a time: `Get` takes a parsed field off the front, `Put` adds an encoded one

  lemma GetUnsigned(width: nat, s: Bytes) returns (read: Read<nat>)
    requires ParseUnsigned(width, s).Some?
    ensures ParseUnsigned(width, s) == Some(read)
    ensures EncodeUnsigned(read.value, width).Some? && s == EncodeUnsigned(read.value, width).value + read.rest
  {
    read := ParseUnsigned(width, s).value;
    UnsignedLaw(width, s, read.value, read.rest);
  }

  lemma PutUnsigned(width: nat, n: int, rest: Bytes) returns (s: Bytes)
    requires EncodeUnsigned(n, width).Some?
    ensures s == EncodeUnsigned(n, width).value + rest && ParseUnsigned(width, s) == Some(Read(n, rest))
  {
    s := EncodeUnsigned(n, width).value + rest;
    UnsignedLaw(width, s, n, rest);
  }

  lemma GetBytes(limit: Option<nat>, s: Bytes) returns (read: Read<Bytes>)
    requires ParseBytes(limit, s).Some?
    ensures ParseBytes(limit, s) == Some(read) && Within(|read.value|, limit)
    ensures EncodeBytes(read.value).Some? && s == EncodeBytes(read.value).value + read.rest
  {
    read := ParseBytes(limit, s).value;
    BytesLaw(limit, s, read.value, read.rest);
  }

  lemma PutBytes(limit: Option<nat>, value: Bytes, rest: Bytes) returns (s: Bytes)
    requires Within(|value|, limit) && EncodeBytes(value).Some?
    ensures s == EncodeBytes(value).value + rest && ParseBytes(limit, s) == Some(Read(value, rest))
  {
    s := EncodeBytes(value).value + rest;
    BytesLaw(limit, s, value, rest);
  }

  lemma GetText(u: Unicode, limit: Option<nat>, s: Bytes) returns (read: Read<Bytes>)
    requires ParseText(u, limit, s).Some?
    ensures ParseText(u, limit, s) == Some(read) && u.Canonical(read.value) && Within(|read.value|, limit)
    ensures EncodeText(u, read.value).Some? && s == EncodeText(u, read.value).value + read.rest
  {
    read := ParseText(u, limit, s).value;
    TextLaw(u, limit, s, read.value, read.rest);
  }

  lemma PutText(u: Unicode, limit: Option<nat>, text: Bytes, rest: Bytes) returns (s: Bytes)
    requires u.Canonical(text) && Within(|text|, limit) && EncodeText(u, text).Some?
    ensures s == EncodeText(u, text).value + rest && ParseText(u, limit, s) == Some(Read(text, rest))
  {
    s := EncodeText(u, text).value + rest;
    TextLaw(u, limit, s, text, rest);
  }

  /** A byte field of `n` bytes takes four more. */
  lemma EncodedLengths(value: Bytes, n: int)
    ensures EncodeBytes(value).Some? <==> |value| <= U32_MAX
    ensures EncodeBytes(value).Some? ==> |EncodeBytes(value).value| == 4 + |value|
    ensures EncodeU16(n).Some? ==> |EncodeU16(n).value| == 2
    ensures EncodeU64(n).Some? ==> |EncodeU64(n).value| == 8
  {
    EncodableRanges(|value|);
  }

  // The reader

  /** A read either fails where the parser fails, or returns what the parser returns and leaves what
      the parser leaves. */
  predicate Follows<T(==)>(parsed: Option<Read<T>>, r: Option<T>, rest: Bytes) {
    && r.Some? == parsed.Some?
    && (r.Some? ==> parsed == Some(Read(r.value, rest)))
  }

  /** A strict, forward-only cursor over canonical bytes. */
  class CanonicalReader {
    const data: Bytes
    var offset: nat

    ghost predicate Valid()
      reads this
    {
      offset <= |data|
    }

    /** What has not been read yet. */
    ghost function Rest(): Bytes
      reads this
      requires Valid()
    {
      data[offset..]
    }

    constructor (data: Bytes)
      ensures Valid() && Rest() == data
    {
      this.data := data;
      offset := 0;
    }

    function Remaining(): (n: nat)
      reads this
      requires Valid()
      ensures n == |Rest()|
    {
      |data| - offset
    }

    method Take(length: nat) returns (r: Option<Bytes>)
      requires Valid()
      modifies this
      ensures Valid() && Follows(ParseRaw(length, old(Rest())), r, Rest())
    {
      if length > Remaining() {
        return None;
      }
      var start := offset;
      offset := offset + length;
      assert data[start..][..length] == data[start..offset] && data[start..][length..] == data[offset..];
      r := Some(data[start..offset]);
    }

    method ReadUnsigned(width: nat) returns (r: Option<nat>)
      requires Valid()
      modifies this
      ensures Valid() && Follows(ParseUnsigned(width, old(Rest())), r, Rest())
    {
      var raw :- Take(width);
      r := Some(FromBigEndian(raw));
    }

    method ReadBytes(limit: Option<nat>) returns (r: Option<Bytes>)
      requires Valid()
      modifies this
      ensures Valid() && Follows(ParseBytes(limit, old(Rest())), r, Rest())
    {
      var length :- ReadUnsigned(4);
      if limit.Some? && length > limit.value {
        return None;
      }
      r := Take(length);
    }

    method ReadText(u: Unicode, limit: Option<nat>) returns (r: Option<Bytes>)
      requires Valid()
      modifies this
      ensures Valid() && Follows(ParseText(u, limit, old(Rest())), r, Rest())
    {
      var encoded :- ReadBytes(limit);
      if !u.utf8(encoded) {
        return None;
      }
      if u.nfc(encoded) != encoded {
        return None;
      }
      r := Some(encoded);
    }

    method ReadSequence(limit: Option<nat>, itemLimit: Option<nat>) returns (r: Option<seq<Bytes>>)
      requires Valid()
      modifies this
      ensures Valid() && Follows(ParseSequence(limit, itemLimit, old(Rest())), r, Rest())
    {
      hide ParseBytes;
      var count :- ReadUnsigned(4);
      if limit.Some? && count > limit.value {
        return None;
      }
      ghost var start := Rest();
      var items: seq<Bytes> := [];
      PrependedNothing(ParseItems(count, itemLimit, start));
      while |items| < count
        invariant Valid() && |items| <= count
        invariant ParseItems(count, itemLimit, start) ==
                  Prepended(items, ParseItems(count - |items|, itemLimit, Rest()))
      {
        ghost var before := Rest();
        ghost var left := count - |items|;
        var item :- ReadBytes(itemLimit);
        PrependedTwice(items, [item], ParseItems(left - 1, itemLimit, Rest()));
        items := items + [item];
      }
      assert items + [] == items;
      r := Some(items);
    }

    /** Whether everything has been read. */
    method IsFinished() returns (finished: bool)
      requires Valid()
      ensures finished <==> Rest() == []
    {
      finished := Remaining() == 0;
    }
  }

  function Prepended(items: seq<Bytes>, parsed: Option<Read<seq<Bytes>>>): Option<Read<seq<Bytes>>> {
    var others :- parsed;
    Some(Read(items + others.value, others.rest))
  }

  lemma PrependedNothing(parsed: Option<Read<seq<Bytes>>>)
    ensures Prepended([], parsed) == parsed
  {
    if parsed.Some? {
      assert [] + parsed.value.value == parsed.value.value;
    }
  }

  lemma PrependedTwice(a: seq<Bytes>, b: seq<Bytes>, parsed: Option<Read<seq<Bytes>>>)
    ensures Prepended(a, Prepended(b, parsed)) == Prepended(a + b, parsed)
  {
    if parsed.Some? {
      assert a + (b + parsed.value.value) == a + b + parsed.value.value;
    }
  }
}
