/**
  Lists of MPEG descriptors and their binary form (tsDescriptorList.cpp).
  A descriptor is its bytes: a tag, the length of the payload and the payload.
 */
module DescriptorLists {
  import opened Octets

  predicate IsDescriptor(d: seq<Byte>) {
    2 <= |d| <= 257 && d[1] == |d| - 2
  }

  type Descriptor = d: seq<Byte> | IsDescriptor(d) witness [0, 0]

  // The binary form of a list.
  function Bytes(ds: seq<Descriptor>): seq<Byte> {
    if ds == [] then [] else ds[0] + Bytes(ds[1..])
  }

  // The descriptors found in a memory area, up to the first one that is truncated.
  function ParseDescriptors(b: seq<Byte>): seq<Descriptor> {
    if |b| >= 2 && b[1] + 2 <= |b| then [b[..b[1] + 2]] + ParseDescriptors(b[b[1] + 2..]) else []
  }

  // The number of descriptors, from the first one, that fit in some room.
  function FitCount(ds: seq<Descriptor>, room: nat): (n: nat)
    ensures n <= |ds|
  {
    if ds == [] || |ds[0]| > room then 0 else 1 + FitCount(ds[1..], room - |ds[0]|)
  }

  lemma {:induction false} BytesOfConcat(a: seq<Descriptor>, b: seq<Descriptor>)
    ensures Bytes(a + b) == Bytes(a) + Bytes(b)
  {
    if a == [] {
      assert a + b == b;
    } else {
      assert (a + b)[1..] == a[1..] + b;
      BytesOfConcat(a[1..], b);
    }
  }

  lemma BytesOfOne(d: Descriptor)
    ensures Bytes([d]) == d
  {
    assert [d][1..] == [];
  }

  // Reading the binary form of a list gives back the list.
  lemma {:induction false} ParseBytes(ds: seq<Descriptor>)
    ensures ParseDescriptors(Bytes(ds)) == ds
  {
    if ds != [] {
      var b := Bytes(ds);
      assert b[..b[1] + 2] == ds[0];
      assert b[b[1] + 2..] == Bytes(ds[1..]);
      ParseBytes(ds[1..]);
    }
  }

  // The run of descriptors that fit is the longest one.
  lemma {:induction false} FitIsLongest(ds: seq<Descriptor>, room: nat, n: nat)
    requires n <= |ds|
    ensures |Bytes(ds[..n])| <= room <==> n <= FitCount(ds, room)
  {
    if n > 0 {
      assert ds[..n][1..] == ds[1..][..n - 1];
      if |ds[0]| <= room {
        FitIsLongest(ds[1..], room - |ds[0]|, n - 1);
      }
    }
  }

  lemma FitSize(ds: seq<Descriptor>, room: nat)
    ensures |Bytes(ds[..FitCount(ds, room)])| <= room
  {
    FitIsLongest(ds, room, FitCount(ds, room));
  }

  // Any descriptor fits in 257 bytes.
  lemma FitsOne(ds: seq<Descriptor>, room: nat)
    requires ds != [] && room >= 257
    ensures FitCount(ds, room) > 0
  {
  }

  // All descriptors fit exactly when their binary size does.
  lemma FitAll(ds: seq<Descriptor>, room: nat)
    ensures FitCount(ds, room) == |ds| <==> |Bytes(ds)| <= room
  {
    assert ds[..|ds|] == ds;
    FitIsLongest(ds, room, |ds|);
  }

  // Two bytes, most significant first.
  function Word16(v: int): (b: seq<Byte>)
    requires 0 <= v < 0x10000
    ensures |b| == 2
  {
    [v / 256, v % 256]
  }

  // A 12-bit length with its four reserved bits set.
  function LengthField(n: nat): (b: seq<Byte>)
    ensures |b| == 2
  {
    Word16(0xF000 + n % 0x1000)
  }

  // ----- Methods of the descriptor list -----

  // Method add: append the descriptors found in a memory area.
  method AddFromMemory(list: seq<Descriptor>, b: seq<Byte>) returns (result: seq<Descriptor>)
    ensures result == list + ParseDescriptors(b)
  {
    hide ParseDescriptors, IsDescriptor;
    result := list;
    var desc: nat, size: nat := 0, |b|;
    assert b[0..] == b;
    while size >= 2 && b[desc + 1] + 2 <= size
      invariant desc + size == |b|
      invariant result + ParseDescriptors(b[desc..]) == list + ParseDescriptors(b)
      decreases size
    {
      var length: nat := b[desc + 1] as int + 2;
      NextDescriptor(result, b, desc);
      result := result + [b[desc..desc + length]];
      desc := desc + length;
      size := size - length;
    }
    NoDescriptor(b[desc..]);
  }

  lemma NextDescriptor(list: seq<Descriptor>, b: seq<Byte>, at: nat)
    requires at + 2 <= |b| && at + b[at + 1] + 2 <= |b|
    ensures IsDescriptor(b[at..at + b[at + 1] + 2])
    ensures list + ParseDescriptors(b[at..])
         == list + [b[at..at + b[at + 1] + 2]] + ParseDescriptors(b[at + b[at + 1] + 2..])
  {
    var length := b[at + 1] as int + 2;
    assert b[at..][..length] == b[at..at + length] && b[at..][length..] == b[at + length..];
  }

  lemma NoDescriptor(b: seq<Byte>)
    requires |b| < 2 || b[1] + 2 > |b|
    ensures ParseDescriptors(b) == []
  {
  }

  // Copy bytes into a buffer.
  method Copy(buffer: array<Byte>, addr: nat, d: seq<Byte>)
    requires addr + |d| <= buffer.Length
    modifies buffer
    ensures buffer[..addr + |d|] == old(buffer[..addr]) + d
  {
    forall k | 0 <= k < |d| {
      buffer[addr + k] := d[k];
    }
  }

  // Method serialize: copy the descriptors from index start as long as they fit.
  method Serialize(list: seq<Descriptor>, buffer: array<Byte>, addr: nat, size: nat, start: nat)
    returns (next: nat, addr': nat, size': nat)
    requires start <= |list| && addr + size <= buffer.Length
    modifies buffer
    ensures next == start + FitCount(list[start..], size) <= |list|
    ensures addr' == addr + |Bytes(list[start..next])| && addr' + size' == addr + size
    ensures buffer[..addr'] == old(buffer[..addr]) + Bytes(list[start..next])
  {
    hide Bytes, FitCount, IsDescriptor;
    next, addr', size' := start, addr, size;
    ghost var before := buffer[..addr];
    NothingWritten(list, start);
    while next < |list| && |list[next]| <= size'
      invariant start <= next <= |list| && addr' + size' == addr + size
      invariant start + FitCount(list[start..], size) == next + FitCount(list[next..], size')
      invariant addr' == addr + |Bytes(list[start..next])|
      invariant buffer[..addr'] == before + Bytes(list[start..next])
    {
      WriteNext(list, start, next, size');
      Copy(buffer, addr', list[next]);
      addr' := addr' + |list[next]|;
      size' := size' - |list[next]|;
      next := next + 1;
    }
    FitNone(list, next, size');
  }

  lemma NothingWritten(list: seq<Descriptor>, start: nat)
    requires start <= |list|
    ensures Bytes(list[start..start]) == []
  {
  }

  lemma WriteNext(list: seq<Descriptor>, start: nat, next: nat, room: nat)
    requires start <= next < |list| && |list[next]| <= room
    ensures Bytes(list[start..next + 1]) == Bytes(list[start..next]) + list[next]
    ensures FitCount(list[next..], room) == 1 + FitCount(list[next + 1..], room - |list[next]|)
  {
    BytesOfConcat(list[start..next], [list[next]]);
    BytesOfOne(list[next]);
    assert list[start..next + 1] == list[start..next] + [list[next]];
    assert list[next..][1..] == list[next + 1..];
  }

  lemma FitNone(list: seq<Descriptor>, next: nat, room: nat)
    requires next <= |list| && (next == |list| || |list[next]| > room)
    ensures FitCount(list[next..], room) == 0
  {
  }

  method PutUInt16(buffer: array<Byte>, at: nat, v: int)
    requires at + 2 <= buffer.Length && 0 <= v < 0x10000
    modifies buffer
    ensures buffer[..] == old(buffer[..at]) + Word16(v) + old(buffer[at + 2..])
  {
    buffer[at], buffer[at + 1] := v / 256, v % 256;
  }

  // Method lengthSerialize: the same as serialize, after a length.
  method LengthSerialize(list: seq<Descriptor>, buffer: array<Byte>, addr: nat, size: nat, start: nat)
    returns (next: nat, addr': nat, size': nat)
    requires start <= |list| && addr + size <= buffer.Length && size >= 2
    modifies buffer
    ensures next == start + FitCount(list[start..], size - 2) <= |list|
    ensures addr' == addr + 2 + |Bytes(list[start..next])| && addr' + size' == addr + size
    ensures buffer[..addr'] == old(buffer[..addr]) + LengthField(|Bytes(list[start..next])|) + Bytes(list[start..next])
  {
    hide Word16;
    ghost var before := buffer[..addr + 2];
    next, addr', size' := Serialize(list, buffer, addr + 2, size - 2, start);
    ghost var serialized := buffer[..];
    assert serialized[..addr'] == before + Bytes(list[start..next]);
    assert serialized[..addr] == before[..addr] && serialized[addr + 2..addr'] == Bytes(list[start..next]);
    var length := addr' - addr - 2;
    PutUInt16(buffer, addr, 0xF000 + length % 0x1000);
    assert buffer[..addr'] == buffer[..][..addr']
        == serialized[..addr] + LengthField(length) + serialized[addr + 2..addr'];
  }
}
