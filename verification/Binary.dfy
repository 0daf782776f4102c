/** Bytes and the big-endian fields (`BE<T>`, `UInt24`) every header is made of. */
module Binary {

  type byte = x: int | 0 <= x < 256
  type Bytes = seq<byte>

  function Pow256(width: nat): (p: nat)
    ensures p > 0
  {
    if width == 0 then 1 else 256 * Pow256(width - 1)
  }

  /** Value of a big-endian field of any width. */
  function Value(s: Bytes): nat {
    if s == [] then 0 else 256 * Value(s[..|s| - 1]) + s[|s| - 1]
  }

  /** The `width` bytes stored for `n`; high bits that do not fit are dropped. */
  function Encode(width: nat, n: nat): (s: Bytes)
    ensures |s| == width
  {
    if width == 0 then [] else Encode(width - 1, n / 256) + [n % 256]
  }

  lemma ModStep(n: nat, m: nat)
    requires m > 0
    ensures 256 * ((n / 256) % m) + n % 256 == n % (256 * m)
  {
    var q := n / 256;
    var k, j := q / m, q % m;
    var low := 256 * j + n % 256;
    assert q == m * k + j;
    assert n == (256 * m) * k + low;
    assert 0 <= low < 256 * m;
    ModUnique(n, 256 * m, k, low);
  }

  lemma ModUnique(n: nat, m: nat, k: int, low: nat)
    requires m > 0 && n == m * k + low && low < m
    ensures n % m == low && n / m == k
  {
    var d := n / m - k;
    assert n == m * (n / m) + n % m;
    assert m * d == low - n % m;
    assert d >= 1 ==> m * d >= m;
    assert d <= -1 ==> m * d <= 0 - m;
  }

  /** Reading back a stored field gives the value reduced to the field's width. */
  lemma {:induction false} ValueOfEncode(width: nat, n: nat)
    ensures Value(Encode(width, n)) == n % Pow256(width)
  {
    if width > 0 {
      var high := Encode(width - 1, n / 256);
      ValueOfEncode(width - 1, n / 256);
      assert Encode(width, n)[..width - 1] == high;
      ModStep(n, Pow256(width - 1));
    }
  }

  /** Storing the value just read reproduces the same bytes, and no value exceeds its width. */
  lemma {:induction false} EncodeOfValue(s: Bytes)
    ensures Encode(|s|, Value(s)) == s
    ensures Value(s) < Pow256(|s|)
  {
    if s != [] {
      var high := s[..|s| - 1];
      EncodeOfValue(high);
      assert Value(s) / 256 == Value(high) && Value(s) % 256 == s[|s| - 1];
      assert s == high + [s[|s| - 1]];
    }
  }

  /** The bytes of a field, highest first. */
  lemma {:induction false} EncodeAt(width: nat, n: nat, i: nat)
    requires i < width
    ensures Encode(width, n)[i] == n / Pow256(width - 1 - i) % 256
  {
    if i < width - 1 {
      EncodeAt(width - 1, n / 256, i);
      DivTwice(n, Pow256(width - 2 - i));
    }
  }

  lemma DivTwice(n: nat, m: nat)
    requires m > 0
    ensures n / 256 / m == n / (256 * m)
  {
    var q := n / 256;
    var k, j := q / m, q % m;
    var low := 256 * j + n % 256;
    assert q == m * k + j;
    assert n == (256 * m) * k + low;
    assert 0 <= low < 256 * m;
    ModUnique(n, 256 * m, k, low);
  }

  lemma FieldBounds(s: Bytes)
    ensures |s| == 2 ==> Value(s) < 0x1_0000
    ensures |s| == 3 ==> Value(s) < 0x100_0000
    ensures |s| == 8 ==> Value(s) < 0x1_0000_0000_0000_0000
  {
    EncodeOfValue(s);
    SmallPowers();
  }

  lemma SmallPowers()
    ensures Pow256(1) == 0x100 && Pow256(2) == 0x1_0000 && Pow256(3) == 0x100_0000
    ensures Pow256(8) == 0x1_0000_0000_0000_0000
  {
    assert Pow256(4) == 0x1_0000_0000 by {
      assert Pow256(2) == 0x1_0000;
    }
    assert Pow256(6) == 0x1_0000_0000_0000;
  }

  /** A stored value that fits its field is read back unchanged. */
  lemma StoreLoad(width: nat, n: nat)
    requires n < Pow256(width)
    ensures Value(Encode(width, n)) == n
  {
    ValueOfEncode(width, n);
  }

  function Zeros(n: nat): (s: Bytes)
    ensures |s| == n
  {
    seq(n, _ => 0)
  }

  function Concat(parts: seq<Bytes>): Bytes {
    if parts == [] then [] else Concat(parts[..|parts| - 1]) + parts[|parts| - 1]
  }

  lemma {:induction false} ConcatAppend(a: seq<Bytes>, b: seq<Bytes>)
    ensures Concat(a + b) == Concat(a) + Concat(b)
  {
    if b == [] {
      assert a + b == a;
    } else {
      var front := b[..|b| - 1];
      ConcatAppend(a, front);
      assert (a + b)[..|a + b| - 1] == a + front;
    }
  }

  lemma ConcatOne(part: Bytes)
    ensures Concat([part]) == part
  {
    var one: seq<Bytes> := [part];
    assert one[..|one| - 1] == [];
  }

  lemma Assoc(a: Bytes, b: Bytes, c: Bytes)
    ensures (a + b) + c == a + (b + c)
  {
  }

  lemma Slice(s: Bytes, i: nat, j: nat, n: nat)
    requires i + j + n <= |s|
    ensures s[i..][j..j + n] == s[i + j..i + j + n] && s[i..][j..] == s[i + j..]
  {
  }
}
