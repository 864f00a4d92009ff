/** File names of frames: "frame_" and a number padded with zeros to at least six digits, which a
    decoder puts back in order by sorting the names. */
module FrameNames {

  // ------------------------------------------------------------------ the order of names

  /** a and b agree up to position k, where a ends or has the smaller character. */
  predicate FirstDifference(a: string, b: string, k: nat) {
    k <= |a| && k < |b| && (forall i :: 0 <= i < k ==> a[i] == b[i]) && (k == |a| || a[k] < b[k])
  }

  /** Lexicographic order on file names. */
  ghost predicate Before(a: string, b: string) {
    exists k: nat :: FirstDifference(a, b, k)
  }

  lemma BeforeIsAsymmetric(a: string, b: string)
    requires Before(a, b)
    ensures !Before(b, a) && a != b
  {
    var k: nat :| FirstDifference(a, b, k);
    if j: nat :| FirstDifference(b, a, j) {
      assert false;
    }
  }

  lemma BeforeIsTransitive(a: string, b: string, c: string)
    requires Before(a, b) && Before(b, c)
    ensures Before(a, c)
  {
    var j: nat :| FirstDifference(a, b, j);
    var k: nat :| FirstDifference(b, c, k);
    assert FirstDifference(a, c, if j < k then j else k);
  }

  ghost predicate Sorted(names: seq<string>) {
    forall i, j :: 0 <= i < j < |names| ==> Before(names[i], names[j])
  }

  ghost predicate Lists(names: seq<string>, all: set<string>) {
    Sorted(names) && forall name :: name in names <==> name in all
  }

  /** There is only one way to list a set of names in order. */
  lemma {:induction false} ListingUnique(a: seq<string>, b: seq<string>, all: set<string>)
    requires Lists(a, all) && Lists(b, all)
    ensures a == b
  {
    hide Before;
    assert a == [] || a[0] in b;
    assert b == [] || b[0] in a;
    if a != [] {
      LeastFirst(a, b, all);
      RestLists(a, all);
      RestLists(b, all);
      ListingUnique(a[1..], b[1..], all - {a[0]});
    }
  }

  lemma LeastFirst(a: seq<string>, b: seq<string>, all: set<string>)
    requires Lists(a, all) && Lists(b, all) && a != [] && b != []
    ensures a[0] == b[0]
  {
    assert a[0] in all && b[0] in all;
    var i :| 0 <= i < |b| && b[i] == a[0];
    var j :| 0 <= j < |a| && a[j] == b[0];
    if a[0] != b[0] {
      assert Before(b[0], b[i]);
      BeforeIsAsymmetric(b[0], a[0]);
      assert false;
    }
  }

  lemma RestLists(a: seq<string>, all: set<string>)
    requires Lists(a, all) && a != []
    ensures Lists(a[1..], all - {a[0]})
  {
    hide Before;
    forall i | 0 < i < |a| ensures a[i] != a[0] {
      BeforeIsAsymmetric(a[0], a[i]);
    }
    forall name ensures name in a[1..] <==> name in all - {a[0]} {
      if name in all - {a[0]} {
        var i :| 0 <= i < |a| && a[i] == name;
        assert a[1..][i - 1] == name;
      }
    }
  }

  // ------------------------------------------------------------------ numbers as digits

  function Digit(d: nat): (c: char)
    requires d < 10
    ensures '0' <= c <= '9'
  {
    '0' + d as char
  }

  function Decimal(n: nat): (s: string)
    ensures s != []
  {
    if n < 10 then [Digit(n)] else Decimal(n / 10) + [Digit(n % 10)]
  }

  function ZeroDigits(n: nat): string {
    seq(n, _ => '0')
  }

  /** The format {:06}: at least six digits, longer numbers in full. */
  function SixDigits(n: nat): string {
    ZeroDigits(if |Decimal(n)| < 6 then 6 - |Decimal(n)| else 0) + Decimal(n)
  }

  function Name(n: nat): string {
    "frame_" + SixDigits(n) + ".png"
  }

  /** The value of decimal digits. */
  function FromDecimal(s: string): int {
    if s == "" then 0 else 10 * FromDecimal(s[..|s| - 1]) + (s[|s| - 1] as int - '0' as int)
  }

  predicate IsDigits(s: string) {
    forall i :: 0 <= i < |s| ==> '0' <= s[i] <= '9'
  }

  lemma {:induction false} DecimalReads(n: nat)
    ensures IsDigits(Decimal(n)) && FromDecimal(Decimal(n)) == n
    ensures Decimal(n)[0] == '0' ==> n == 0
  {
    if n < 10 {
      assert Decimal(n)[..0] == "";
    } else {
      DecimalReads(n / 10);
      assert Decimal(n)[..|Decimal(n)| - 1] == Decimal(n / 10);
    }
  }

  lemma {:induction false} LeadingZeros(k: nat, s: string)
    requires IsDigits(s)
    ensures IsDigits(ZeroDigits(k) + s) && FromDecimal(ZeroDigits(k) + s) == FromDecimal(s)
    decreases |s|, k
  {
    var all := ZeroDigits(k) + s;
    if s != "" {
      assert all[..|all| - 1] == ZeroDigits(k) + s[..|s| - 1];
      LeadingZeros(k, s[..|s| - 1]);
    } else if k > 0 {
      assert all[..|all| - 1] == ZeroDigits(k - 1) + s;
      LeadingZeros(k - 1, s);
    }
  }

  /** The number of a frame in its name: at least six digits, and no more than it takes. */
  lemma NameReads(n: nat) returns (digits: string)
    ensures Name(n) == "frame_" + digits + ".png"
    ensures IsDigits(digits) && FromDecimal(digits) == n
    ensures |digits| >= 6 && (|digits| > 6 ==> digits[0] != '0')
  {
    digits := SixDigits(n);
    DecimalReads(n);
    LeadingZeros(if |Decimal(n)| < 6 then 6 - |Decimal(n)| else 0, Decimal(n));
    if |Decimal(n)| >= 6 {
      assert digits == Decimal(n);
    }
  }

  function Pow10(w: nat): (r: nat)
    ensures r > 0
  {
    if w == 0 then 1 else 10 * Pow10(w - 1)
  }

  /** Exactly the last w digits of n. */
  function Padded(n: nat, w: nat): (s: string)
    ensures |s| == w
    decreases w, n
  {
    if w == 0 then "" else Padded(n / 10, w - 1) + [Digit(n % 10)]
  }

  lemma {:induction false} PaddedZero(w: nat)
    ensures Padded(0, w) == ZeroDigits(w)
  {
    if w > 0 {
      PaddedZero(w - 1);
      assert Digit(0) == '0';
    }
  }

  lemma {:induction false} PaddedDecimal(n: nat, w: nat)
    requires 0 < w && n < Pow10(w)
    ensures |Decimal(n)| <= w && Padded(n, w) == ZeroDigits(w - |Decimal(n)|) + Decimal(n)
  {
    if n < 10 {
      PaddedZero(w - 1);
    } else {
      PaddedDecimal(n / 10, w - 1);
    }
  }

  lemma {:induction false} PaddedOrder(i: nat, j: nat, w: nat) returns (k: nat)
    requires i < j < Pow10(w)
    ensures k < w && FirstDifference(Padded(i, w), Padded(j, w), k)
    decreases w
  {
    var a, b := Padded(i / 10, w - 1), Padded(j / 10, w - 1);
    if i / 10 == j / 10 {
      k := w - 1;
      assert Padded(i, w)[..k] == a && Padded(j, w)[..k] == a;
      assert Padded(i, w)[k] == Digit(i % 10) && Padded(j, w)[k] == Digit(j % 10);
    } else {
      k := PaddedOrder(i / 10, j / 10, w - 1);
      assert Padded(i, w)[..k] == a[..k] && Padded(j, w)[..k] == b[..k];
      assert Padded(i, w)[k] == a[k] && Padded(j, w)[k] == b[k];
    }
  }

  lemma SixDigitsAre(n: nat)
    requires n < 1_000_000
    ensures n < Pow10(6) && SixDigits(n) == Padded(n, 6)
  {
    assert Pow10(6) == 1_000_000;
    PaddedDecimal(n, 6);
  }

  lemma NameOrder(i: nat, j: nat)
    requires i < j < 1_000_000
    ensures Before(Name(i), Name(j))
  {
    SixDigitsAre(i);
    SixDigitsAre(j);
    hide Padded;
    var k := PaddedOrder(i, j, 6);
    var a, b := Name(i), Name(j);
    assert a[..6] == "frame_" && b[..6] == "frame_";
    assert a[6..12] == Padded(i, 6) && b[6..12] == Padded(j, 6);
    assert a[..6 + k] == a[..6] + a[6..12][..k] && b[..6 + k] == b[..6] + b[6..12][..k];
    assert a[6 + k] == a[6..12][k] && b[6 + k] == b[6..12][k];
    assert FirstDifference(a, b, 6 + k);
  }

  function Names(n: nat): seq<string> {
    seq(n, i requires 0 <= i => Name(i))
  }

  /** Sorting by name agrees with the frame numbers exactly for fewer than a million data frames:
      "frame_1000000.png" sorts before "frame_999999.png". */
  lemma OrderedByName(n: nat)
    ensures Sorted(Names(n + 1)) <==> n < 1_000_000
  {
    if n < 1_000_000 {
      var names := Names(n + 1);
      forall i, j | 0 <= i < j < |names| ensures Before(names[i], names[j]) {
        NameOrder(i, j);
      }
    } else {
      SixDigitsAre(999_999);
      MillionDigits();
      var late, early := Name(1_000_000), Name(999_999);
      assert late[6] == '1' && early[6] == '9' && late[..6] == "frame_" && early[..6] == "frame_";
      assert FirstDifference(late, early, 6);
      BeforeIsAsymmetric(late, early);
      assert Names(n + 1)[999_999] == early && Names(n + 1)[1_000_000] == late;
    }
  }

  lemma MillionDigits()
    ensures SixDigits(1_000_000)[..1] == "1"
    ensures SixDigits(999_999)[..1] == "9"
  {
    assert Decimal(1) == "1" && Decimal(10) == "10" && Decimal(100) == "100" && Decimal(1_000) == "1000";
    assert Decimal(10_000) == "10000" && Decimal(100_000) == "100000" && Decimal(1_000_000) == "1000000";
    assert Decimal(9) == "9" && Decimal(99) == "99" && Decimal(999) == "999" && Decimal(9_999) == "9999";
    assert Decimal(99_999) == "99999" && Decimal(999_999) == "999999";
  }

  /** The names of frames 0 to n. */
  function FirstNames(n: nat): set<string> {
    set i | 0 <= i <= n :: Name(i)
  }

  /** All names but the first sort behind them. */
  ghost predicate OthersBehind(all: set<string>, n: nat) {
    && FirstNames(n) <= all
    && forall name :: name in all && name !in FirstNames(n) ==> Before(Name(n), name)
  }

  // Behind frame i comes every later frame and every other name.
  lemma LaterBehind(all: set<string>, n: nat, i: nat, name: string)
    requires i <= n < 1_000_000 && OthersBehind(all, n)
    requires name in all && forall j :: 0 <= j <= i ==> name != Name(j)
    ensures Before(Name(i), name)
  {
    hide Name;
    if name in FirstNames(n) {
      var j :| 0 <= j <= n && name == Name(j);
      NameOrder(i, j);
    } else if i < n {
      NameOrder(i, n);
      BeforeIsTransitive(Name(i), Name(n), name);
    }
  }

  lemma NextName(names: seq<string>, all: set<string>, n: nat, i: nat)
    requires i <= n < 1_000_000 && Lists(names, all) && OthersBehind(all, n)
    requires i <= |names| && forall j :: 0 <= j < i ==> names[j] == Name(j)
    ensures i < |names| && names[i] == Name(i)
  {
    hide Name, Before;
    assert Name(i) in FirstNames(n);
    var k :| 0 <= k < |names| && names[k] == Name(i);
    forall j | 0 <= j < i ensures Name(j) != Name(i) {
      NameOrder(j, i);
      BeforeIsAsymmetric(Name(j), Name(i));
    }
    if names[i] != Name(i) {
      forall j | 0 <= j <= i ensures names[i] != Name(j) {
        if j < i { BeforeIsAsymmetric(names[j], names[i]); }
      }
      LaterBehind(all, n, i, names[i]);
      BeforeIsAsymmetric(Name(i), names[i]);
      assert false;
    }
  }

  /** A listing begins with the first names in order, if the others sort behind them. */
  lemma {:induction false} FirstListed(names: seq<string>, all: set<string>, n: nat, i: nat)
    requires i <= n + 1 && n < 1_000_000 && Lists(names, all) && OthersBehind(all, n)
    ensures i <= |names| && forall j :: 0 <= j < i ==> names[j] == Name(j)
  {
    hide Name, Lists, OthersBehind;
    if i > 0 {
      FirstListed(names, all, n, i - 1);
      NextName(names, all, n, i - 1);
    }
  }
}
