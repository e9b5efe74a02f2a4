/** `binary.BigEndian`: unsigned integers as fixed-width byte strings whose byte
    order is their numeric order. */
module BigEndian {
  import opened Keys
  import Lex

  function Pow256(k: nat): nat {
    if k == 0 then 1 else 256 * Pow256(k - 1)
  }

  function Encode(n: nat, width: nat): (s: Bytes)
    ensures |s| == width
  {
    if width == 0 then [] else Encode(n / 256, width - 1) + [(n % 256) as char]
  }

  function Decode(s: Bytes): nat {
    if s == [] then 0 else Decode(s[..|s| - 1]) * 256 + s[|s| - 1] as nat
  }

  lemma {:induction false} DecodeOfEncode(n: nat, width: nat)
    requires n < Pow256(width)
    ensures Decode(Encode(n, width)) == n
  {
    if width > 0 {
      DecodeOfEncode(n / 256, width - 1);
      assert Encode(n, width)[..width - 1] == Encode(n / 256, width - 1);
    }
  }

  lemma {:induction false} EncodeOfDecode(s: Bytes)
    ensures Decode(s) < Pow256(|s|) && Encode(Decode(s), |s|) == s
  {
    if s != [] {
      EncodeOfDecode(s[..|s| - 1]);
      assert s == s[..|s| - 1] + [s[|s| - 1]];
    }
  }

  lemma {:induction false} LessAppend(a: string, b: string, x: string, y: string)
    requires |a| == |b| && Lex.Less(a, b)
    ensures Lex.Less(a + x, b + y)
  {
    if a[0] == b[0] {
      LessAppend(a[1..], b[1..], x, y);
      assert (a + x)[1..] == a[1..] + x && (b + y)[1..] == b[1..] + y;
    }
  }

  /** Byte order is numeric order. */
  lemma {:induction false} OrderPreserved(m: nat, n: nat, width: nat)
    requires m < n < Pow256(width)
    ensures Lex.Less(Encode(m, width), Encode(n, width))
  {
    if width > 0 {
      var x, y := [(m % 256) as char], [(n % 256) as char];
      if m / 256 < n / 256 {
        OrderPreserved(m / 256, n / 256, width - 1);
        LessAppend(Encode(m / 256, width - 1), Encode(n / 256, width - 1), x, y);
      } else {
        assert m % 256 < n % 256;
        Lex.CommonPrefix(Encode(m / 256, width - 1), x, y);
      }
    }
  }

  const TWO_TO_THE_63: int := 0x8000_0000_0000_0000

  type Int64 = n: int | -TWO_TO_THE_63 <= n < TWO_TO_THE_63

  /** Go's conversions uint64(n) and int64(u). */
  function ToUint64(n: Int64): (u: nat)
    ensures u < TWO_TO_THE_64
  {
    if n < 0 then n + TWO_TO_THE_64 else n
  }

  function ToInt64(u: nat): Int64
    requires u < TWO_TO_THE_64
  {
    if u < TWO_TO_THE_63 then u else u - TWO_TO_THE_64
  }

  function PutInt64(n: Int64): (s: Bytes)
    ensures |s| == 8
  {
    Encode(ToUint64(n), 8)
  }

  function GetInt64(s: Bytes): Int64
    requires |s| == 8
  {
    EncodeOfDecode(s);
    Width8();
    ToInt64(Decode(s))
  }

  lemma Width8()
    ensures Pow256(8) == TWO_TO_THE_64
  {
    assert Pow256(4) == 256 * 256 * 256 * 256 by { assert Pow256(2) == 256 * 256; }
    assert Pow256(6) == 256 * 256 * Pow256(4);
  }

  lemma GetPutInt64(n: Int64)
    ensures GetInt64(PutInt64(n)) == n
  {
    Width8();
    DecodeOfEncode(ToUint64(n), 8);
  }
}
