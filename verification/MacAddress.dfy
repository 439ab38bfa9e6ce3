/** Packing a board's six address bytes into an integer id, and unpacking the id to address the board. */
module MacAddress {
  import opened Words

  function Pow256(k: nat): (p: nat)
    ensures p >= 1
  {
    if k == 0 then 1 else 256 * Pow256(k - 1)
  }

  /** Most significant byte first. */
  function Value(bytes: seq<Octet>): (n: nat)
    ensures n < Pow256(|bytes|)
  {
    if bytes == [] then 0 else 256 * Value(bytes[..|bytes| - 1]) + bytes[|bytes| - 1]
  }

  /** A number shifted right by `k` bytes. */
  function Shifted(n: nat, k: nat): nat {
    if k == 0 then n else Shifted(n / 256, k - 1)
  }

  /** A number shifted left by `k` bytes. */
  function Raised(x: nat, k: nat): nat {
    if k == 0 then x else 256 * Raised(x, k - 1)
  }

  lemma {:induction false} FirstByte(bytes: seq<Octet>)
    requires bytes != []
    ensures Value(bytes) == Raised(bytes[0], |bytes| - 1) + Value(bytes[1..])
  {
    var n := |bytes| - 1;
    if n > 0 {
      var front := bytes[..n];
      FirstByte(front);
      assert bytes[1..][..n - 1] == front[1..];
    }
  }

  lemma {:induction false} ByteAt(bytes: seq<Octet>, k: nat)
    requires k < |bytes|
    ensures Shifted(Value(bytes), k) % 256 == bytes[|bytes| - 1 - k]
  {
    if k > 0 {
      ByteAt(bytes[..|bytes| - 1], k - 1);
    }
  }

  /** The six bytes of an id. */
  function Unpacked(id: nat): (mac: seq<Octet>)
    ensures |mac| == 6
  {
    seq(6, i requires 0 <= i < 6 => Shifted(id, 5 - i) % 256)
  }

  lemma {:induction false} Digits(id: nat, width: nat, bytes: seq<Octet>)
    requires |bytes| == width && id < Pow256(width)
    requires forall i | 0 <= i < width :: bytes[i] == Shifted(id, width - 1 - i) % 256
    ensures Value(bytes) == id
  {
    if width > 0 {
      var front := bytes[..width - 1];
      forall i | 0 <= i < width - 1 ensures front[i] == Shifted(id / 256, width - 2 - i) % 256 {
        assert Shifted(id, width - 1 - i) == Shifted(id / 256, width - 2 - i);
      }
      Digits(id / 256, width - 1, front);
      assert bytes[width - 1] == Shifted(id, 0) % 256;
    }
  }

  /** Packing and unpacking are inverse to each other: six bytes, and ids of 48 bits. */
  lemma PackUnpack(mac: seq<Octet>, id: nat)
    requires |mac| == 6 && id < Pow256(6)
    ensures Unpacked(Value(mac)) == mac
    ensures Value(Unpacked(id)) == id
  {
    forall i | 0 <= i < 6 ensures Unpacked(Value(mac))[i] == mac[i] {
      ByteAt(mac, 5 - i);
    }
    Digits(id, 6, Unpacked(id));
  }

  lemma AddByte(mac: seq<Octet>, i: nat)
    requires |mac| == 6 && i < 6
    ensures Value(mac[i..]) == Value(mac[i + 1..]) + Raised(mac[i], 5 - i)
  {
    FirstByte(mac[i..]);
    assert mac[i..][1..] == mac[i + 1..];
    hide Value, Raised;
  }

  /** The driver's loop, from the last byte to the first; an unknown client has id 0. */
  method MacAddressOf(macs: seq<seq<Octet>>, client: nat) returns (thismac: nat)
    requires forall c | 0 <= c < |macs| :: |macs[c]| == 6
    ensures thismac == if client >= |macs| then 0 else Value(macs[client])
  {
    if client >= |macs| {
      return 0;
    }
    var mac := macs[client];
    thismac := 0;
    assert mac[6..] == [] && mac[0..] == mac;
    var i := 5;
    while i >= 0
      invariant -1 <= i <= 5
      invariant thismac == Value(mac[i + 1..])
    {
      AddByte(mac, i);
      thismac := thismac + Raised(mac[i], 5 - i);
      i := i - 1;
    }
  }

  /** The board reader's loop. */
  method MacByByte(febId: nat) returns (mac: array<Octet>)
    ensures mac[..] == Unpacked(febId)
  {
    mac := new Octet[6](_ => 0);
    for i := 0 to 6
      invariant forall k | 0 <= k < i :: mac[k] == Unpacked(febId)[k]
    {
      mac[i] := Shifted(febId, 5 - i) % 256;
    }
  }

  lemma {:induction false} ValueInjective(a: seq<Octet>, b: seq<Octet>)
    requires |a| == |b|
    ensures Value(a) == Value(b) <==> a == b
  {
    if a != [] {
      var n := |a| - 1;
      ValueInjective(a[..n], b[..n]);
      assert a == a[..n] + [a[n]] && b == b[..n] + [b[n]];
    }
  }

  /** The id that the fragment builder computes for an event, from the first configured id and the event's board number,
      is the id of that board exactly when the two boards agree in all bytes but the last. */
  lemma ComputedIdIff(first: seq<Octet>, mac: seq<Octet>)
    requires |first| == |mac| == 6
    ensures Value(first) - Value(first) % 256 + mac[5] == Value(mac) <==> first[..5] == mac[..5]
  {
    ValueInjective(first[..5], mac[..5]);
    assert Value(first) - Value(first) % 256 == 256 * Value(first[..5]);
  }
}
