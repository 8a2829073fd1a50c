/**
 * The minimal CBOR decoder for compiler metadata (index.js `decodeCBOR`), a subset of the
 * data items of RFC 8949 section 3.1: short byte strings (major type 2, including the
 * one-byte length form, additional information 24) and short text strings (major type 3).
 * Every other leader yields an undefined structure and consumes only itself; a declared
 * length running past the end takes the bytes that remain. Nothing here fails.
 */
module Cbor {
  import opened Wrappers
  import opened Bytes

  /** A decoded structure. Text payloads are kept as their raw UTF-8 bytes. */
  datatype Item =
    | ByteString(bytes: seq<Byte>)
    | TextString(utf8: seq<Byte>)
    | Unsupported  // the `undefined` structure of a leader outside the jump table

  /** The output object: each key maps to `null` (None) or to the structure that followed it. */
  type Metadata = map<Item, Option<Item>>

  function Min(a: int, b: int): int { if a < b then a else b }

  /** The leaders of the jump table. */
  predicate Supported(leader: Byte)
  {
    (0x40 <= leader <= 0x57) || leader == 0x58 || (0x60 <= leader <= 0x77)
  }

  function Payload(it: Item): seq<Byte>
  {
    match it
    case ByteString(b) => b
    case TextString(t) => t
    case Unsupported => []
  }

  /** `cbor.slice(0, len)`: at most `len` bytes. */
  function Take(s: seq<Byte>, len: nat): (p: seq<Byte>)
    ensures |p| == Min(len, |s|) && p == s[..|p|]
  {
    s[..Min(len, |s|)]
  }

  /** Bytes before the payload: the leader, and the length byte of leader 0x58 when there is one. */
  function HeaderSize(s: seq<Byte>): nat
    requires |s| > 0
  {
    if s[0] == 0x58 && |s| > 1 then 2 else 1
  }

  /** The payload length a supported leader declares (0x58 with nothing after it reads as 0). */
  function DeclaredLength(s: seq<Byte>): nat
    requires |s| > 0
  {
    var b := s[0];
    if 0x40 <= b <= 0x57 then b - 0x40
    else if b == 0x58 then (if |s| > 1 then s[1] else 0)
    else if 0x60 <= b <= 0x77 then b - 0x60
    else 0
  }

  /** One structure read from the front of `s`, with the number of bytes it consumed. */
  function ReadItem(s: seq<Byte>): (r: (Item, nat))
    requires |s| > 0
    ensures 1 <= r.1 <= |s|
  {
    var b := s[0];
    if 0x40 <= b <= 0x57 then
      var p := Take(s[1..], b - 0x40);
      (ByteString(p), 1 + |p|)
    else if b == 0x58 then
      // `cbor.shift()` of an empty array is undefined, and `slice(0, undefined)` of it is empty
      if |s| == 1 then (ByteString([]), 1)
      else
        var p := Take(s[2..], s[1]);
        (ByteString(p), 2 + |p|)
    else if 0x60 <= b <= 0x77 then
      var p := Take(s[1..], b - 0x60);
      (TextString(p), 1 + |p|)
    else
      (Unsupported, 1)
  }

  /**
   * The leader decides: outside the table, one undefined byte; inside it, a byte or text
   * string whose payload follows the header and is the declared length cut to what remains.
   */
  lemma ReadItemShape(s: seq<Byte>)
    requires |s| > 0
    ensures var (it, n) := ReadItem(s);
      && (it.Unsupported? <==> !Supported(s[0]))
      && (it.Unsupported? ==> n == 1)
      && (!it.Unsupported? ==>
        && it.TextString? == (0x60 <= s[0] <= 0x77)
        && n == HeaderSize(s) + |Payload(it)|
        && Payload(it) == s[HeaderSize(s)..n]
        && |Payload(it)| == Min(DeclaredLength(s), |s| - HeaderSize(s)))
  {
  }

  /** The structures of `s`, read one after another until it is exhausted. */
  function Items(s: seq<Byte>): seq<Item>
    decreases |s|
  {
    if s == [] then [] else [ReadItem(s).0] + Items(s[ReadItem(s).1..])
  }

  /**
   * Key/value assignment: the 1st, 3rd, ... structures are keys, each followed by its value;
   * a final key without a value maps to None.
   */
  function Assign(items: seq<Item>, m: Metadata): Metadata
    decreases |items|
  {
    if |items| == 0 then m
    else if |items| == 1 then m[items[0] := None]
    else Assign(items[2..], m[items[0] := Some(items[1])])
  }

  /** What `decodeCBOR` returns: the first byte (the map header) is discarded. */
  function Decode(cbor: seq<Byte>): Metadata
  {
    if cbor == [] then map[] else Assign(Items(cbor[1..]), map[])
  }

  /** The structures written as keys: those at even positions. */
  function KeysOf(items: seq<Item>): set<Item>
  {
    set j | 0 <= j < |items| && j % 2 == 0 :: items[j]
  }

  /** The decoder loop, with a read cursor in place of `shift()` and re-slicing. */
  method DecodeCbor(cbor: seq<Byte>) returns (output: Metadata)
    ensures output == Decode(cbor)
  {
    output := map[];
    if |cbor| == 0 {
      return;
    }
    var pos := 1;
    var isKey := true;
    var lastStructure := Unsupported;
    while pos < |cbor|
      invariant Decoding(cbor, pos, isKey, lastStructure, output)
      decreases |cbor| - pos
    {
      ghost var start := pos;
      var structure;
      structure, pos := ReadStructure(cbor, pos);
      DecodeStep(cbor, start, isKey, lastStructure, output, structure, pos);
      if isKey {
        output := output[structure := None];
        lastStructure := structure;
      } else {
        output := output[lastStructure := Some(structure)];
      }
      isKey := !isKey;
    }
    assert cbor[pos..] == [];
    if !isKey {
      assert output[lastStructure := None] == output;
    }
  }

  /**
   * The loop state after the header and the structures before `pos`: assigning what remains
   * (after the key still waiting for its value, if any) finishes the decoding.
   */
  ghost predicate Decoding(cbor: seq<Byte>, pos: nat, isKey: bool, last: Item, output: Metadata)
  {
    && 1 <= pos <= |cbor|
    && (isKey ==> Assign(Items(cbor[pos..]), output) == Decode(cbor))
    && (!isKey ==>
      && last in output && output[last] == None
      && Assign([last] + Items(cbor[pos..]), output) == Decode(cbor))
  }

  /** One structure read: as a key it gets the placeholder, as a value it is written to the last key. */
  lemma DecodeStep(cbor: seq<Byte>, pos: nat, isKey: bool, last: Item, output: Metadata, structure: Item, next: nat)
    requires Decoding(cbor, pos, isKey, last, output) && pos < next <= |cbor|
    requires ReadItem(cbor[pos..]) == (structure, next - pos)
    ensures isKey ==> Decoding(cbor, next, false, structure, output[structure := None])
    ensures !isKey ==> Decoding(cbor, next, true, last, output[last := Some(structure)])
  {
    ItemsStep(cbor, pos);
    var rest := Items(cbor[next..]);
    assert Items(cbor[pos..]) == [structure] + rest;
    if isKey {
      KeyPlaceholder(structure, rest, output);
    } else {
      ValueAfterKey(last, structure, rest, output);
    }
  }

  /** One pass of the jump table: the structure at `pos` and the cursor after it. */
  method ReadStructure(cbor: seq<Byte>, pos: nat) returns (structure: Item, next: nat)
    requires pos < |cbor|
    ensures pos < next <= |cbor|
    ensures ReadItem(cbor[pos..]) == (structure, next - pos)
  {
    ghost var s := cbor[pos..];
    var byte := cbor[pos];
    next := pos + 1;
    if 0x40 <= byte <= 0x57 {
      var end := Min(next + (byte - 0x40), |cbor|);
      structure := ByteString(cbor[next..end]);
      assert s[1..][..end - next] == cbor[next..end];
      next := end;
    } else if byte == 0x58 {
      if next < |cbor| {
        var len := cbor[next];
        next := next + 1;
        var end := Min(next + len, |cbor|);
        structure := ByteString(cbor[next..end]);
        assert s[2..][..end - next] == cbor[next..end];
        next := end;
      } else {
        structure := ByteString([]);
      }
    } else if 0x60 <= byte <= 0x77 {
      var end := Min(next + (byte - 0x60), |cbor|);
      structure := TextString(cbor[next..end]);
      assert s[1..][..end - next] == cbor[next..end];
      next := end;
    } else {
      structure := Unsupported;
    }
  }

  lemma ItemsStep(s: seq<Byte>, p: nat)
    requires p < |s|
    ensures Items(s[p..]) == [ReadItem(s[p..]).0] + Items(s[p + ReadItem(s[p..]).1..])
  {
    assert s[p..][ReadItem(s[p..]).1..] == s[p + ReadItem(s[p..]).1..];
  }

  /** Writing the placeholder before the value changes nothing once the value is written. */
  lemma KeyPlaceholder(k: Item, rest: seq<Item>, m: Metadata)
    ensures Assign([k] + rest, m[k := None]) == Assign([k] + rest, m)
  {
    if rest != [] {
      assert ([k] + rest)[2..] == rest[1..];
      assert m[k := None][k := Some(rest[0])] == m[k := Some(rest[0])];
    }
  }

  /** A value is written to the key just before it; then the rest is assigned. */
  lemma ValueAfterKey(k: Item, v: Item, rest: seq<Item>, m: Metadata)
    ensures Assign([k] + ([v] + rest), m) == Assign(rest, m[k := Some(v)])
  {
    assert ([k] + ([v] + rest))[2..] == rest;
  }

  /** The keys of the result: those already present and every structure in key position. */
  lemma {:induction false} AssignKeys(items: seq<Item>, m: Metadata)
    ensures Assign(items, m).Keys == m.Keys + KeysOf(items)
  {
    if |items| == 1 {
      assert KeysOf(items) == {items[0]};
    } else if |items| >= 2 {
      var tail := items[2..];
      AssignKeys(tail, m[items[0] := Some(items[1])]);
      forall k ensures k in KeysOf(items) <==> k == items[0] || k in KeysOf(tail) {
        if k in KeysOf(tail) {
          var j :| 0 <= j < |tail| && j % 2 == 0 && tail[j] == k;
          assert items[j + 2] == k;
        }
        if k in KeysOf(items) && k != items[0] {
          var j :| 0 <= j < |items| && j % 2 == 0 && items[j] == k;
          assert j >= 2 && tail[j - 2] == k;
        }
      }
    } else {
      assert KeysOf(items) == {};
    }
  }

  /**
   * Last write wins: a key's value is the structure after its LAST occurrence in key position,
   * or None when that occurrence is the final structure.
   */
  lemma {:induction false} AssignLastWrite(items: seq<Item>, m: Metadata, j: nat)
    requires j < |items| && j % 2 == 0
    requires forall i :: j < i < |items| && i % 2 == 0 ==> items[i] != items[j]
    ensures items[j] in Assign(items, m)
    ensures Assign(items, m)[items[j]] == if j + 1 < |items| then Some(items[j + 1]) else None
  {
    if j == 0 {
      if |items| >= 2 {
        AssignUntouched(items[2..], m[items[0] := Some(items[1])], items[0]);
      }
    } else {
      AssignLastWrite(items[2..], m[items[0] := Some(items[1])], j - 2);
    }
  }

  /** A structure never in key position keeps whatever the map already held for it. */
  lemma {:induction false} AssignUntouched(items: seq<Item>, m: Metadata, k: Item)
    requires k in m
    requires forall i :: 0 <= i < |items| && i % 2 == 0 ==> items[i] != k
    ensures k in Assign(items, m) && Assign(items, m)[k] == m[k]
  {
    if |items| >= 2 {
      forall i | 0 <= i < |items| - 2 && i % 2 == 0 ensures items[2..][i] != k {
        assert items[i + 2] != k;
      }
      AssignUntouched(items[2..], m[items[0] := Some(items[1])], k);
    } else if |items| == 1 {
      assert items[0] != k;
    }
  }

  /** The decoded keys are exactly the structures in key position, starting after the header. */
  lemma DecodeKeys(cbor: seq<Byte>)
    requires |cbor| > 0
    ensures Decode(cbor).Keys == KeysOf(Items(cbor[1..]))
  {
    AssignKeys(Items(cbor[1..]), map[]);
  }

  /** The decoded value of a key: what followed its last occurrence as a key, or None for a dangling key. */
  lemma DecodeValue(cbor: seq<Byte>, j: nat)
    requires |cbor| > 0
    requires var items := Items(cbor[1..]);
      j < |items| && j % 2 == 0 &&
      forall i :: j < i < |items| && i % 2 == 0 ==> items[i] != items[j]
    ensures var items := Items(cbor[1..]);
      items[j] in Decode(cbor) &&
      Decode(cbor)[items[j]] == if j + 1 < |items| then Some(items[j + 1]) else None
  {
    AssignLastWrite(Items(cbor[1..]), map[], j);
  }

  /** Nothing after the header byte: the empty object. */
  lemma DecodeEmpty(cbor: seq<Byte>)
    requires |cbor| <= 1
    ensures Decode(cbor) == map[]
  {
    if |cbor| == 1 {
      assert cbor[1..] == [];
    }
  }

  /** Every structure consumes at least one byte, so there are never more structures than bytes. */
  lemma {:induction false} ItemsCount(s: seq<Byte>)
    ensures |Items(s)| <= |s|
  {
    if s != [] {
      ItemsCount(s[ReadItem(s).1..]);
    }
  }

  /** An unsupported leader is not an error: it becomes one undefined structure of one byte. */
  lemma DecodeUnsupported(header: Byte, leader: Byte)
    requires !Supported(leader)
    ensures Decode([header, leader]) == map[Unsupported := None]
  {
    var s := [header, leader];
    assert s[1..] == [leader];
    assert [leader][1..] == [];
    assert Items(s[1..]) == [Unsupported];
  }

  /** A structure this decoder reads back in the shortest form RFC 8949 section 3.1 gives it. */
  predicate Encodable(it: Item)
  {
    match it
    case ByteString(b) => |b| <= 255
    case TextString(t) => |t| <= 23
    case Unsupported => false
  }

  function EncodeItem(it: Item): (e: seq<Byte>)
    requires Encodable(it)
    ensures |e| > 0
  {
    match it
    case ByteString(b) => if |b| <= 23 then [0x40 + |b|] + b else [0x58, |b|] + b
    case TextString(t) => [0x60 + |t|] + t
  }

  function EncodeItems(items: seq<Item>): seq<Byte>
    requires forall i :: 0 <= i < |items| ==> Encodable(items[i])
  {
    if items == [] then [] else EncodeItem(items[0]) + EncodeItems(items[1..])
  }

  /** Reading an encoded structure gives it back and consumes exactly its encoding. */
  lemma ReadEncoded(it: Item, rest: seq<Byte>)
    requires Encodable(it)
    ensures ReadItem(EncodeItem(it) + rest) == (it, |EncodeItem(it)|)
  {
    var e := EncodeItem(it);
    var s := e + rest;
    match it
    case ByteString(b) =>
      if |b| <= 23 {
        assert s[1..] == b + rest;
        assert Take(s[1..], s[0] - 0x40) == b;
      } else {
        assert s[2..] == b + rest;
        assert Take(s[2..], s[1]) == b;
      }
    case TextString(t) =>
      assert s[1..] == t + rest;
      assert Take(s[1..], s[0] - 0x60) == t;
  }

  /** Reading a run of encoded structures gives them back in order. */
  lemma {:induction false} ItemsOfEncoding(items: seq<Item>)
    requires forall i :: 0 <= i < |items| ==> Encodable(items[i])
    ensures Items(EncodeItems(items)) == items
  {
    if items != [] {
      var rest := EncodeItems(items[1..]);
      ReadEncoded(items[0], rest);
      var s := EncodeItems(items);
      assert s == EncodeItem(items[0]) + rest;
      assert s[|EncodeItem(items[0])|..] == rest;
      ItemsOfEncoding(items[1..]);
      assert items == [items[0]] + items[1..];
    }
  }

  /** The text keys the compilers write: "ipfs" and "solc" in ASCII. */
  const IpfsKey: Item := TextString([0x69, 0x70, 0x66, 0x73])
  const SolcKey: Item := TextString([0x73, 0x6f, 0x6c, 0x63])

  /**
   * A two-entry map holding a multihash under "ipfs" and a version triple under "solc"
   * decodes to exactly those two entries.
   */
  lemma DecodeSolcMetadata(multihash: seq<Byte>, version: seq<Byte>)
    requires |multihash| == 34 && |version| == 3
    ensures var items := [IpfsKey, ByteString(multihash), SolcKey, ByteString(version)];
      Decode([0xa2] + EncodeItems(items)) ==
        map[IpfsKey := Some(ByteString(multihash)), SolcKey := Some(ByteString(version))]
  {
    var items := [IpfsKey, ByteString(multihash), SolcKey, ByteString(version)];
    var s := [0xa2] + EncodeItems(items);
    assert s[1..] == EncodeItems(items);
    ItemsOfEncoding(items);
    assert items[2..] == [SolcKey, ByteString(version)];
    assert items[2..][2..] == [];
    assert IpfsKey != SolcKey by { assert IpfsKey.utf8[0] != SolcKey.utf8[0]; }
    var m1 := map[IpfsKey := Some(ByteString(multihash))];
    assert Assign(items, map[]) == Assign(items[2..], m1);
    assert Assign(items[2..], m1) == Assign([], m1[SolcKey := Some(ByteString(version))]);
  }
}
