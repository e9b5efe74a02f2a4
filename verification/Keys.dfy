/** pkg/store/store.go: composite keys. Each part is written as its length in
    unsigned varint form followed by its bytes. */
module Keys {
  import opened Options

  /** A byte, as a char below 256; a Go string or byte slice is a Bytes. */
  type Byte = c: char | c as int < 256 witness '\0'
  type Bytes = seq<Byte>

  /** What one Go string or slice can hold: its length is an int. */
  type Text = s: Bytes | |s| < 0x8000_0000_0000_0000 witness []

  const MAX_VARINT_LEN64: nat := 10
  const TWO_TO_THE_64: nat := 0x1_0000_0000_0000_0000

  // ------------------------------------------------------------------- varints

  function Uvarint(n: nat): (s: Bytes)
    ensures s != []
  {
    if n < 128 then [n as char] else [(n % 128 + 128) as char] + Uvarint(n / 128)
  }

  function ReadUvarint(s: Bytes): (r: Option<(nat, nat)>)
    ensures r.Some? ==> 1 <= r.value.1 <= |s|
  {
    if s == [] then None
    else if s[0] as int < 128 then Some((s[0] as int, 1))
    else
      match ReadUvarint(s[1..])
      case None => None
      case Some(r) => Some((s[0] as int - 128 + 128 * r.0, r.1 + 1))
  }

  lemma {:induction false} ReadUvarintOfUvarint(n: nat, rest: Bytes)
    ensures ReadUvarint(Uvarint(n) + rest) == Some((n, |Uvarint(n)|))
  {
    var s := Uvarint(n) + rest;
    if n >= 128 {
      ReadUvarintOfUvarint(n / 128, rest);
      assert s[1..] == Uvarint(n / 128) + rest;
    }
  }

  function Pow128(k: nat): nat {
    if k == 0 then 1 else 128 * Pow128(k - 1)
  }

  lemma {:induction false} UvarintLength(n: nat, k: nat)
    requires k > 0 && n < Pow128(k)
    ensures |Uvarint(n)| <= k
  {
    if n >= 128 {
      assert k > 1 by { assert Pow128(1) == 128 * Pow128(0); }
      UvarintLength(n / 128, k - 1);
    }
  }

  lemma TenBytesAreEnough(n: nat)
    requires n < TWO_TO_THE_64
    ensures |Uvarint(n)| <= MAX_VARINT_LEN64
  {
    assert Pow128(5) == 128 * 128 * 128 * 128 * 128 by { assert Pow128(3) == 128 * 128 * 128; }
    assert Pow128(10) >= TWO_TO_THE_64 by { assert Pow128(8) == 128 * 128 * 128 * Pow128(5); }
    UvarintLength(n, 10);
  }

  /** `binary.PutUvarint`: fills the header buffer, returns how much it used. */
  method PutUvarint(hdr: array<Byte>, n: nat) returns (used: nat)
    requires hdr.Length >= MAX_VARINT_LEN64 && n < TWO_TO_THE_64
    modifies hdr
    ensures used <= hdr.Length && hdr[..used] == Uvarint(n)
  {
    TenBytesAreEnough(n);
    var x, i := n, 0;
    while x >= 128
      invariant i + |Uvarint(x)| == |Uvarint(n)|
      invariant hdr[..i] + Uvarint(x) == Uvarint(n)
    {
      hdr[i] := (x % 128 + 128) as char;
      assert hdr[..i + 1] == hdr[..i] + [(x % 128 + 128) as char];
      x, i := x / 128, i + 1;
    }
    hdr[i] := x as char;
    assert hdr[..i + 1] == hdr[..i] + [x as char];
    used := i + 1;
  }

  // ------------------------------------------------------------ composite keys

  function Key(parts: seq<Bytes>): Bytes {
    if parts == [] then [] else Uvarint(|parts[0]|) + parts[0] + Key(parts[1..])
  }

  lemma {:induction false} KeyAppend(parts: seq<Bytes>, p: Bytes)
    ensures Key(parts + [p]) == Key(parts) + Uvarint(|p|) + p
  {
    if parts == [] {
      assert Key([p]) == Uvarint(|p|) + p + Key([]);
    } else {
      KeyAppend(parts[1..], p);
      assert (parts + [p])[1..] == parts[1..] + [p];
    }
  }

  method CompositeKey(parts: seq<Text>) returns (out: Bytes)
    ensures out == Key(parts)
  {
    var hdr := new Byte[MAX_VARINT_LEN64](_ => '\0');
    out := [];
    for i := 0 to |parts|
      invariant out == Key(parts[..i])
    {
      var n := PutUvarint(hdr, |parts[i]|);
      out := out + hdr[..n];
      out := out + parts[i];
      KeyAppend(parts[..i], parts[i]);
      assert parts[..i + 1] == parts[..i] + [parts[i]];
    }
    assert parts[..|parts|] == parts;
  }

  /** Reads a composite key back, or fails on bytes that are not one. */
  function SplitKey(s: Bytes): Option<seq<Bytes>>
    decreases |s|
  {
    if s == [] then Some([])
    else
      match ReadUvarint(s)
      case None => None
      case Some((len, used)) =>
        if used + len > |s| then None
        else
          match SplitKey(s[used + len..])
          case None => None
          case Some(rest) => Some([s[used..used + len]] + rest)
  }

  /** Composite keys are uniquely decodable, whatever bytes the parts hold and
      however many parts there are. */
  lemma {:induction false} SplitKeyOfKey(parts: seq<Bytes>)
    ensures SplitKey(Key(parts)) == Some(parts)
  {
    if parts != [] {
      var p, rest := parts[0], Key(parts[1..]);
      var u := Uvarint(|p|);
      var s := u + p + rest;
      assert s == u + (p + rest);
      ReadUvarintOfUvarint(|p|, p + rest);
      assert s[|u|..|u| + |p|] == p && s[|u| + |p|..] == rest;
      SplitKeyOfKey(parts[1..]);
      assert parts == [p] + parts[1..];
    }
  }

  lemma KeyInjective(p: seq<Bytes>, q: seq<Bytes>)
    requires Key(p) == Key(q)
    ensures p == q
  {
    SplitKeyOfKey(p);
    SplitKeyOfKey(q);
  }
}
