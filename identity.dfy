/** Object identity (engine/src/object.hpp, engine/src/object.cpp).

    A cIdentifier holds a fixed 32-byte ID. Generate builds the text
    "<seed><counter>" from one counter shared by every call, advances the
    counter, and copies the first 32 bytes of the text's C string into the
    ID. The counter is a hidden static in the source; here it is the state
    of an explicit IdentifierRegistry object. */
module Identity {
  import opened Base

  const MAX_ID_BYTE_SIZE: nat := 32

  /** cIdentifier::ID, a std::array of 32 bytes: two IDs are equal exactly
      when their bytes are. */
  type Id = s: seq<byte> | |s| == MAX_ID_BYTE_SIZE witness seq(32, _ => 0 as byte)

  /** The ID of a default-constructed cIdentifier: value-initialised, all zero. */
  const DEFAULT_ID: Id := seq(32, _ => 0 as byte)

  /** The byte that a character of a std::string stands for. */
  function ByteOf(c: char): byte
  {
    ((c as int) % 256) as byte
  }

  function Bytes(s: string): (b: seq<byte>)
    ensures |b| == |s|
    ensures forall i :: 0 <= i < |s| ==> b[i] == ByteOf(s[i])
  {
    seq(|s|, i requires 0 <= i < |s| => ByteOf(s[i]))
  }

  /** typeName + std::to_string(counter). */
  function IdentifierText(seed: string, counter: nat): string
  {
    seed + Decimal(counter)
  }

  /** The bytes the 32-byte memcpy takes from the text's C string. The text
      is followed by its NUL terminator; when the text is shorter than 31
      bytes the copy reads past the terminator, where the model puts zeros. */
  function MakeId(seed: string, counter: nat): (id: Id)
  {
    var t := Bytes(IdentifierText(seed, counter));
    if |t| >= MAX_ID_BYTE_SIZE then t[..MAX_ID_BYTE_SIZE]
    else t + seq(MAX_ID_BYTE_SIZE - |t|, _ => 0 as byte)
  }

  /** The ID holds exactly the first 32 bytes of the text, so a longer text is
      truncated, and every byte after a shorter text is zero. */
  lemma MakeIdHoldsTextPrefix(seed: string, counter: nat)
    ensures var t := Bytes(IdentifierText(seed, counter));
            var n := if |t| < MAX_ID_BYTE_SIZE then |t| else MAX_ID_BYTE_SIZE;
            MakeId(seed, counter)[..n] == t[..n] &&
            forall i :: n <= i < MAX_ID_BYTE_SIZE ==> MakeId(seed, counter)[i] == 0
  {
  }

  /** In the ID of a text shorter than 32 bytes, the byte after the digits
      is the copied terminator. */
  lemma TerminatorAfterDigits(seed: string, c: nat)
    requires |IdentifierText(seed, c)| < MAX_ID_BYTE_SIZE
    ensures MakeId(seed, c)[|seed| + |Decimal(c)|] == 0
  {
    MakeIdHoldsTextPrefix(seed, c);
  }

  /** In the ID of a text shorter than 32 bytes, digit i of the counter sits
      at offset |seed| + i, and it is not a zero byte. */
  lemma DigitByteAt(seed: string, c: nat, i: nat)
    requires |IdentifierText(seed, c)| < MAX_ID_BYTE_SIZE
    requires i < |Decimal(c)|
    ensures MakeId(seed, c)[|seed| + i] as int == Decimal(c)[i] as int
    ensures MakeId(seed, c)[|seed| + i] != 0
  {
    var text := IdentifierText(seed, c);
    var t := Bytes(text);
    MakeIdHoldsTextPrefix(seed, c);
    assert MakeId(seed, c)[..|t|][|seed| + i] == t[..|t|][|seed| + i];
    assert t[|seed| + i] == ByteOf(text[|seed| + i]);
    assert text[|seed| + i] == Decimal(c)[i];
    var d := Decimal(c)[i];
    assert '0' <= d <= '9';
    assert ByteOf(d) as int == d as int;
  }

  /** Equal short IDs for one seed have digit strings of equal length: the
      shorter text puts its terminator where the longer has a digit. */
  lemma SameIdSameDigitCount(seed: string, a: nat, b: nat)
    requires |IdentifierText(seed, a)| < MAX_ID_BYTE_SIZE
    requires |IdentifierText(seed, b)| < MAX_ID_BYTE_SIZE
    requires |Decimal(a)| < |Decimal(b)|
    ensures MakeId(seed, a) != MakeId(seed, b)
  {
    TerminatorAfterDigits(seed, a);
    DigitByteAt(seed, b, |Decimal(a)|);
  }

  /** For one seed, two different counter values give different IDs as long
      as both texts fit in 31 bytes, so that the terminator is copied. */
  lemma {:induction false} DistinctCountersGiveDistinctIds(seed: string, a: nat, b: nat)
    requires a != b
    requires |IdentifierText(seed, a)| < MAX_ID_BYTE_SIZE
    requires |IdentifierText(seed, b)| < MAX_ID_BYTE_SIZE
    ensures MakeId(seed, a) != MakeId(seed, b)
  {
    var da, db := Decimal(a), Decimal(b);
    if |da| < |db| {
      SameIdSameDigitCount(seed, a, b);
    } else if |db| < |da| {
      SameIdSameDigitCount(seed, b, a);
    } else if da == db {
      DecimalInjective(a, b);
    } else {
      var i :| 0 <= i < |da| && da[i] != db[i];
      DifferentDigitDifferentId(seed, a, b, i);
    }
  }

  lemma DifferentDigitDifferentId(seed: string, a: nat, b: nat, i: nat)
    requires |IdentifierText(seed, a)| < MAX_ID_BYTE_SIZE
    requires |IdentifierText(seed, b)| < MAX_ID_BYTE_SIZE
    requires i < |Decimal(a)| && i < |Decimal(b)| && Decimal(a)[i] != Decimal(b)[i]
    ensures MakeId(seed, a) != MakeId(seed, b)
  {
    DigitByteAt(seed, a, i);
    DigitByteAt(seed, b, i);
  }

  /** The shared identifier counter (the static `counter` of Generate). */
  class IdentifierRegistry {
    var counter: nat

    ghost predicate Valid()
      reads this
    {
      counter < U64_MODULUS
    }

    constructor ()
      ensures Valid() && counter == 0
    {
      counter := 0;
    }

    /** cIdentifier::Generate: the ID of seed + the counter's value before the
        increment; the usize counter advances by one whatever the seed. */
    method Generate(seed: string) returns (id: Id)
      requires Valid()
      modifies this
      ensures Valid()
      ensures counter == U64(old(counter) + 1)
      ensures id == MakeId(seed, old(counter))
    {
      id := MakeId(seed, counter);
      counter := U64(counter + 1);
    }
  }

  /** Bookkeeping fields of iObject: occupancy flag, allocator index and a
      pointer to the identifier (None for a null pointer). */
  datatype ObjectHeader = ObjectHeader(occupied: bool, allocatorIndex: int, identifier: Option<Id>)

  /** The field defaults of a freshly constructed iObject. */
  function FreshObjectHeader(): (h: ObjectHeader)
    ensures !h.occupied && h.allocatorIndex == 0 && h.identifier == None
  {
    ObjectHeader(false, 0, None)
  }

  /** iObject::GetID: the identifier's ID, unchanged. The source dereferences
      the pointer, so it must not be null. */
  function GetID(h: ObjectHeader): (id: Id)
    requires h.identifier.Some?
    ensures Some(id) == h.identifier
  {
    h.identifier.value
  }
}
