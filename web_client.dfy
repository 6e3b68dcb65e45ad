/**
 * The browser client: the repack of a canvas's RGBA pixels into the
 * 3DS top screen's layout, and the list of addresses scanned for the
 * console.
 */
module WebClient {
  import opened Wrappers

  /** The port the console listens on. */
  const Port: nat := 5050

  /** How many hosts of the local network are scanned. */
  const HostCount: nat := 256

  /** `a * b` grows with `a`. */
  lemma MulLeft(a: nat, b: nat, n: nat)
    requires a <= b
    ensures a * n <= b * n
  {
  }

  /** Row `y`, column `x` of a `width`-wide grid of `height` rows lies inside it. */
  lemma CellInGrid(x: nat, y: nat, width: nat, height: nat)
    requires x < width && y < height
    ensures y * width + x < width * height
  {
    MulLeft(y + 1, height, width);
  }

  /** Division by a positive `n` undoes `q * n + r` for a remainder below `n`. */
  lemma DivMod(q: nat, r: nat, n: nat)
    requires r < n
    ensures (q * n + r) / n == q && (q * n + r) % n == r
  {
    var m := q * n + r;
    var d, e := m / n, m % n;
    assert d * n + e == m;
    if d < q {
      MulLeft(d + 1, q, n);
    } else if d > q {
      MulLeft(q + 1, d, n);
    }
  }

  /**
   * The byte written for channel `c` of the pixel at column `x`, row `y`:
   * opaque alpha, then blue, green and red from the source RGBA bytes.
   */
  function Channel(data: seq<byte>, width: nat, height: nat, x: nat, y: nat, c: nat): byte
    requires |data| == 4 * (width * height) && x < width && y < height && c < 4
  {
    CellInGrid(x, y, width, height);
    var cell := y * width + x;
    var offset := cell * 4;
    if c == 0 then 0xFF
    else if c == 1 then data[offset + 2]
    else if c == 2 then data[offset + 1]
    else data[offset]
  }

  /**
   * The output byte at `q`: quad `q / 4` is the pixel of column
   * `(q / 4) / height`, counted from the bottom row upwards.
   */
  function Expected(data: seq<byte>, width: nat, height: nat, q: nat): byte
    requires |data| == 4 * (width * height) && q < |data|
  {
    var p := q / 4;
    assert p < width * height;
    var x := p / height;
    var y := height - 1 - p % height;
    DivMod(x, p % height, height);
    assert x < width by {
      if x >= width {
        MulLeft(width, x, height);
      }
    }
    Channel(data, width, height, x, y, q % 4)
  }

  /** Where channel `c` of the pixel at column `x`, row `y` lands: columns left to right, each bottom to top. */
  function Slot(height: nat, x: nat, y: nat, c: nat): nat
    requires y < height
  {
    4 * (x * height + (height - 1 - y)) + c
  }

  /**
   * The repack is a placement: every channel of every pixel has its own
   * slot inside the output, and the output byte there is that channel.
   */
  lemma Placement(data: seq<byte>, width: nat, height: nat, x: nat, y: nat, c: nat)
    requires |data| == 4 * (width * height) && x < width && y < height && c < 4
    ensures Slot(height, x, y, c) < |data|
    ensures Expected(data, width, height, Slot(height, x, y, c)) == Channel(data, width, height, x, y, c)
  {
    var p := x * height + (height - 1 - y);
    CellInGrid(height - 1 - y, x, height, width);
    assert p < width * height;
    DivMod(x, height - 1 - y, height);
    assert Slot(height, x, y, c) / 4 == p;
  }

  /** Distinct channels or pixels never share a slot. */
  lemma SlotsDistinct(height: nat, x: nat, y: nat, c: nat, x': nat, y': nat, c': nat)
    requires y < height && y' < height && c < 4 && c' < 4
    requires Slot(height, x, y, c) == Slot(height, x', y', c')
    ensures x == x' && y == y' && c == c'
  {
    var p, p' := x * height + (height - 1 - y), x' * height + (height - 1 - y');
    assert 4 * p + c == 4 * p' + c';
    assert p == p' && c == c';
    DivMod(x, height - 1 - y, height);
    DivMod(x', height - 1 - y', height);
  }

  /** The body of the inner loop: the four bytes of one pixel at the running index. */
  method WritePixel(data: seq<byte>, width: nat, height: nat, x: nat, y: nat, bytes: array<byte>, i: nat)
    requires |data| == 4 * (width * height) && bytes.Length == |data|
    requires x < width && y < height && i == Slot(height, x, y, 0) && i + 4 <= bytes.Length
    requires forall q :: 0 <= q < i ==> bytes[q] == Expected(data, width, height, q)
    modifies bytes
    ensures forall q :: 0 <= q < i + 4 ==> bytes[q] == Expected(data, width, height, q)
    ensures forall q :: i + 4 <= q < bytes.Length ==> bytes[q] == old(bytes[q])
  {
    Placement(data, width, height, x, y, 0);
    Placement(data, width, height, x, y, 1);
    Placement(data, width, height, x, y, 2);
    Placement(data, width, height, x, y, 3);
    CellInGrid(x, y, width, height);
    var cell := y * width + x;
    var offset := cell * 4;
    bytes[i] := 0xFF;
    bytes[i + 1] := data[offset + 2];
    bytes[i + 2] := data[offset + 1];
    bytes[i + 3] := data[offset];
  }

  /**
   * The image handler's loop: walk the columns left to right and each
   * column from the bottom row up, writing four bytes per pixel at a
   * running index.
   */
  method Repack(data: seq<byte>, width: nat, height: nat) returns (bytes: array<byte>)
    requires |data| == 4 * (width * height)
    ensures bytes.Length == |data|
    ensures forall q :: 0 <= q < bytes.Length ==> bytes[q] == Expected(data, width, height, q)
  {
    bytes := new byte[|data|];
    var i := 0;
    var x := 0;
    while x < width
      invariant x <= width && i == 4 * (x * height) && x * height <= width * height
      invariant forall q :: 0 <= q < i ==> bytes[q] == Expected(data, width, height, q)
    {
      MulLeft(x + 1, width, height);
      assert (x + 1) * height == x * height + height;
      var y: int := height - 1;
      while y >= 0
        invariant -1 <= y < height && i == 4 * (x * height) + 4 * (height - 1 - y)
        invariant i + 4 * (y + 1) <= bytes.Length
        invariant forall q :: 0 <= q < i ==> bytes[q] == Expected(data, width, height, q)
      {
        WritePixel(data, width, height, x, y, bytes, i);
        i := i + 4;
        y := y - 1;
      }
      x := x + 1;
    }
  }

  /** The index of the last '.' in `s`, or -1 (`lastIndexOf`). */
  function LastDot(s: string): (k: int)
    ensures -1 <= k < |s|
    ensures k >= 0 ==> s[k] == '.'
    ensures forall j :: k < j < |s| ==> s[j] != '.'
  {
    if s == [] then -1
    else if s[|s| - 1] == '.' then |s| - 1
    else LastDot(s[..|s| - 1])
  }

  /** The local network's prefix: `ip` up to and including its last '.'. */
  function IpPrefix(ip: string): (p: string)
    ensures p <= ip
    ensures p == [] <==> forall j :: 0 <= j < |ip| ==> ip[j] != '.'
    ensures p != [] ==> p[|p| - 1] == '.' && forall j :: |p| <= j < |ip| ==> ip[j] != '.'
  {
    ip[..LastDot(ip) + 1]
  }

  /** The decimal digits of `n`, as `+` on a string and a number writes it. */
  function Decimal(n: nat): (s: string)
    ensures |s| >= 1 && forall j :: 0 <= j < |s| ==> '0' <= s[j] <= '9'
    ensures n >= 10 ==> s[0] != '0'
  {
    if n < 10 then [(n + '0' as int) as char]
    else Decimal(n / 10) + [(n % 10 + '0' as int) as char]
  }

  /** The number a string of decimal digits spells. */
  function Value(s: string): nat
    requires forall j :: 0 <= j < |s| ==> '0' <= s[j] <= '9'
  {
    if s == [] then 0 else Value(s[..|s| - 1]) * 10 + (s[|s| - 1] as int - '0' as int)
  }

  /** Reading the digits back gives the number. */
  lemma {:induction false} DecimalValue(n: nat)
    ensures Value(Decimal(n)) == n
  {
    if n >= 10 {
      DecimalValue(n / 10);
      var s := Decimal(n);
      assert s[..|s| - 1] == Decimal(n / 10);
    }
  }

  /**
   * The scan's prefix.  `ipPrefix` is a global that only a found local
   * address sets; `localIp` starts as 0, and 0, a missing address and the
   * empty string all fail the `if (ip)` test, leaving `ipPrefix` undefined.
   */
  function ScanPrefix(localIp: Option<string>): (r: Option<string>)
    ensures r.Some? <==> localIp.Some? && localIp.value != []
    ensures r.Some? ==> r.value <= localIp.value && (r.value == [] <==> '.' !in localIp.value)
  {
    match localIp
    case Some(ip) => if ip == [] then None else Some(IpPrefix(ip))
    case None => None
  }

  /**
   * The host and port of the i-th connection, `ipPrefix + i`.  With a
   * string prefix that is the prefix followed by the number's digits; with
   * `ipPrefix` undefined the sum is the number NaN, whose text is "NaN".
   */
  function Target(prefix: Option<string>, i: nat): (t: (string, nat))
    ensures t.1 == Port
    ensures prefix.Some? ==>
      var n := |prefix.value|;
      n < |t.0| && t.0[..n] == prefix.value
      && (forall j :: n <= j < |t.0| ==> '0' <= t.0[j] <= '9')
      && Value(t.0[n..]) == i
    ensures prefix.None? ==> t.0 == "NaN"
  {
    match prefix
    case Some(p) =>
      var host := p + Decimal(i);
      assert host[..|p|] == p && host[|p|..] == Decimal(i);
      DecimalValue(i);
      (host, Port)
    case None => ("NaN", Port)
  }

  /** The scan loop: one connection for each host number 0..255, all on the console's port. */
  method ScanTargets(prefix: Option<string>) returns (targets: seq<(string, nat)>)
    ensures |targets| == HostCount
    ensures forall i :: 0 <= i < HostCount ==> targets[i] == Target(prefix, i)
  {
    targets := [];
    var i := 0;
    while i < HostCount
      invariant i <= HostCount && |targets| == i
      invariant forall j :: 0 <= j < i ==> targets[j] == Target(prefix, j)
    {
      targets := targets + [Target(prefix, i)];
      i := i + 1;
    }
  }

  /** With a local address the scan reaches 256 different hosts. */
  lemma ScanDistinct(prefix: Option<string>, i: nat, j: nat)
    requires prefix.Some? && Target(prefix, i) == Target(prefix, j)
    ensures i == j
  {
  }

  /** Without a local address every connection of the scan goes to the same host, NaN. */
  lemma ScanWithoutAddress(i: nat, j: nat)
    ensures Target(None, i) == Target(None, j) == ("NaN", Port)
  {
  }
}
