/** The Verhoeff checksum of Aadhaar numbers, and the errors it always detects. */
module Verhoeff {
  import opened ByteStrings

  type Digit = d: int | 0 <= d < 10

  /** The multiplication table of the dihedral group of order ten. */
  const D: seq<seq<Digit>> := [
    [0, 1, 2, 3, 4, 5, 6, 7, 8, 9],
    [1, 2, 3, 4, 0, 6, 7, 8, 9, 5],
    [2, 3, 4, 0, 1, 7, 8, 9, 5, 6],
    [3, 4, 0, 1, 2, 8, 9, 5, 6, 7],
    [4, 0, 1, 2, 3, 9, 5, 6, 7, 8],
    [5, 9, 8, 7, 6, 0, 4, 3, 2, 1],
    [6, 5, 9, 8, 7, 1, 0, 4, 3, 2],
    [7, 6, 5, 9, 8, 2, 1, 0, 4, 3],
    [8, 7, 6, 5, 9, 3, 2, 1, 0, 4],
    [9, 8, 7, 6, 5, 4, 3, 2, 1, 0]]

  /** The permutation table, indexed by position modulo 8. */
  const P: seq<seq<Digit>> := [
    [0, 1, 2, 3, 4, 5, 6, 7, 8, 9],
    [1, 5, 7, 6, 2, 8, 3, 0, 9, 4],
    [5, 8, 0, 3, 7, 9, 6, 1, 4, 2],
    [8, 9, 1, 6, 0, 4, 3, 5, 2, 7],
    [9, 4, 5, 3, 1, 2, 6, 8, 7, 0],
    [4, 2, 8, 6, 5, 7, 3, 9, 0, 1],
    [2, 7, 9, 3, 8, 0, 6, 4, 1, 5],
    [7, 0, 4, 6, 9, 1, 3, 2, 5, 8]]

  function Times(a: Digit, b: Digit): Digit { D[a][b] }

  function Permuted(i: nat, x: Digit): Digit { P[i % 8][x] }

  /** A turn by −4…8 fifths, as a turn by 0…4. */
  function Wrap(k: int): int {
    if k < 0 then k + 5 else if k < 5 then k else k - 5
  }

  /** Rotations 0…4 and reflections 5…9 of a pentagon, composed. */
  function Compose(a: Digit, b: Digit): Digit {
    if a < 5 && b < 5 then Wrap(a + b)
    else if a < 5 then 5 + Wrap(a + b - 5)
    else if b < 5 then 5 + Wrap(a - 5 - b)
    else Wrap(a - b)
  }

  lemma TableIsDihedral(a: Digit, b: Digit)
    ensures Times(a, b) == Compose(a, b)
  {
  }

  lemma ComposeAssociates(a: Digit, b: Digit, c: Digit)
    ensures Compose(Compose(a, b), c) == Compose(a, Compose(b, c))
  {
  }

  lemma ComposeCancels(a: Digit, b: Digit, c: Digit)
    ensures Compose(a, b) == Compose(a, c) ==> b == c
    ensures Compose(b, a) == Compose(c, a) ==> b == c
  {
  }

  /** The checksum of digits from least to most significant, the first at position i. */
  function Fold(ds: seq<Digit>, i: nat, c: Digit): Digit {
    if ds == [] then c else Fold(ds[1..], i + 1, Times(c, Permuted(i, ds[0])))
  }

  lemma PermutationInjective(i: nat, x: Digit, y: Digit)
    requires x != y
    ensures Permuted(i, x) != Permuted(i, y)
  {
  }

  /** Row i + 1 is row 1 after row i, and row 0 follows row 7. */
  lemma PermutationStep(i: nat, x: Digit)
    ensures Permuted(i + 1, x) == P[1][Permuted(i, x)]
  {
    RowStep(i % 8, x);
    assert (i + 1) % 8 == if i % 8 == 7 then 0 else i % 8 + 1;
  }

  lemma RowStep(r: nat, x: Digit)
    requires r < 8
    ensures P[if r == 7 then 0 else r + 1][x] == P[1][P[r][x]]
  {
  }

  /** The i-th power of the permutation (0 1 5 8 9 4 2 7)(3 6): along the cycle by i, and across by i. */
  const CYCLE: seq<Digit> := [0, 1, 5, 8, 9, 4, 2, 7]

  lemma {:induction false} PermutedOnCycle(i: nat, k: nat)
    requires k < 8
    ensures Permuted(i, CYCLE[k]) == CYCLE[(k + i) % 8]
  {
    if i == 0 {
      CheckDigitPlain(CYCLE[k]);
    } else {
      PermutedOnCycle(i - 1, k);
      OneTurn(i - 1, CYCLE[k], k + i - 1);
    }
  }

  lemma NextPlace(n: nat)
    ensures (n + 1) % 8 == (n % 8 + 1) % 8
  {
  }

  lemma OneTurn(i: nat, x: Digit, n: nat)
    requires Permuted(i, x) == CYCLE[n % 8]
    ensures Permuted(i + 1, x) == CYCLE[(n + 1) % 8]
  {
    PermutationStep(i, x);
    CycleStep(n % 8);
    NextPlace(n);
  }

  lemma CycleStep(k: nat)
    requires k < 8
    ensures P[1][CYCLE[k]] == CYCLE[(k + 1) % 8]
  {
  }

  lemma {:induction false} PermutedOnPair(i: nat)
    ensures Permuted(i, 3) == if i % 2 == 0 then 3 else 6
    ensures Permuted(i, 6) == if i % 2 == 0 then 6 else 3
  {
    if i > 0 {
      PermutedOnPair(i - 1);
      PermutationStep(i - 1, 3);
      PermutationStep(i - 1, 6);
    }
  }

  /** The digit in the first place, the check digit, counts as it is. */
  lemma CheckDigitPlain(x: Digit)
    ensures Permuted(0, x) == x && Times(0, x) == x && Times(x, 0) == x
  {
  }

  /** Row 1 is chosen so that a·σ(b) and b·σ(a) differ. */
  lemma AntiSymmetric(a: Digit, b: Digit)
    requires a != b
    ensures Times(a, P[1][b]) != Times(b, P[1][a])
  {
  }

  lemma TimesCancels(a: Digit, b: Digit, c: Digit)
    requires b != c
    ensures Times(a, b) != Times(a, c) && Times(b, a) != Times(c, a)
  {
    TableIsDihedral(a, b);
    TableIsDihedral(a, c);
    TableIsDihedral(b, a);
    TableIsDihedral(c, a);
    ComposeCancels(a, b, c);
  }

  lemma TimesAssociates(a: Digit, b: Digit, c: Digit)
    ensures Times(Times(a, b), c) == Times(a, Times(b, c))
  {
    TableIsDihedral(a, b);
    TableIsDihedral(Times(a, b), c);
    TableIsDihedral(b, c);
    TableIsDihedral(a, Times(b, c));
    ComposeAssociates(a, b, c);
  }

  /** Different states stay different through any digits. */
  lemma {:induction false} FoldSeparates(ds: seq<Digit>, i: nat, c: Digit, c': Digit)
    requires c != c'
    ensures Fold(ds, i, c) != Fold(ds, i, c')
  {
    if ds != [] {
      TimesCancels(Permuted(i, ds[0]), c, c');
      FoldSeparates(ds[1..], i + 1, Times(c, Permuted(i, ds[0])), Times(c', Permuted(i, ds[0])));
    }
  }

  /** Changing one digit changes the checksum, at any position of any length of digits. */
  lemma {:induction false} SingleErrorChangesFold(ds: seq<Digit>, i: nat, c: Digit, k: nat, x: Digit)
    requires k < |ds| && ds[k] != x
    ensures Fold(ds, i, c) != Fold(ds[k := x], i, c)
  {
    if k == 0 {
      PermutationInjective(i, ds[0], x);
      TimesCancels(c, Permuted(i, ds[0]), Permuted(i, x));
      assert ds[k := x][1..] == ds[1..];
      FoldSeparates(ds[1..], i + 1, Times(c, Permuted(i, ds[0])), Times(c, Permuted(i, x)));
    } else {
      SingleErrorChangesFold(ds[1..], i + 1, Times(c, Permuted(i, ds[0])), k - 1, x);
      assert ds[k := x][1..] == ds[1..][k - 1 := x];
    }
  }

  function Swapped<T>(s: seq<T>, k: nat): seq<T>
    requires k + 1 < |s|
  {
    s[k := s[k + 1]][k + 1 := s[k]]
  }

  /** Swapping two different neighbours changes the checksum, at any position of any length of digits. */
  lemma {:induction false} TranspositionChangesFold(ds: seq<Digit>, i: nat, c: Digit, k: nat)
    requires k + 1 < |ds| && ds[k] != ds[k + 1]
    ensures Fold(ds, i, c) != Fold(Swapped(ds, k), i, c)
  {
    var es := Swapped(ds, k);
    if k == 0 {
      var a, b := Permuted(i, ds[0]), Permuted(i, ds[1]);
      PermutationInjective(i, ds[0], ds[1]);
      PermutationStep(i, ds[0]);
      PermutationStep(i, ds[1]);
      AntiSymmetric(a, b);
      TimesAssociates(c, a, P[1][b]);
      TimesAssociates(c, b, P[1][a]);
      TimesCancels(c, Times(a, P[1][b]), Times(b, P[1][a]));
      assert es[1..][1..] == ds[1..][1..];
      FoldSeparates(ds[1..][1..], i + 2, Times(Times(c, a), P[1][b]), Times(Times(c, b), P[1][a]));
      assert Fold(ds[1..], i + 1, Times(c, a)) == Fold(ds[1..][1..], i + 2, Times(Times(c, a), P[1][b]));
      assert Fold(es[1..], i + 1, Times(c, b)) == Fold(ds[1..][1..], i + 2, Times(Times(c, b), P[1][a]));
    } else {
      TranspositionChangesFold(ds[1..], i + 1, Times(c, Permuted(i, ds[0])), k - 1);
      assert es[1..] == Swapped(ds[1..], k - 1);
    }
  }

  /** The state only multiplies from the left. */
  lemma {:induction false} FoldFrom(ds: seq<Digit>, i: nat, c: Digit)
    ensures Fold(ds, i, c) == Times(c, Fold(ds, i, 0))
  {
    CheckDigitPlain(c);
    if ds != [] {
      var x := Permuted(i, ds[0]);
      CheckDigitPlain(x);
      FoldFrom(ds[1..], i + 1, Times(c, x));
      FoldFrom(ds[1..], i + 1, x);
      TimesAssociates(c, x, Fold(ds[1..], i + 1, 0));
    }
  }

  /** The inverse in the group: a rotation is undone by its opposite, a reflection by itself. */
  function Inverse(a: Digit): Digit {
    if a == 0 || a >= 5 then a else 5 - a
  }

  lemma InverseUndoes(a: Digit, b: Digit)
    ensures Times(b, a) == 0 <==> b == Inverse(a)
  {
  }

  /** Whatever the other digits are, exactly one check digit makes the checksum zero. */
  lemma CheckDigitUnique(ds: seq<Digit>, x: Digit)
    ensures Fold([x] + ds, 0, 0) == 0 <==> x == Inverse(Fold(ds, 1, 0))
  {
    CheckDigitPlain(x);
    assert ([x] + ds)[1..] == ds;
    FoldFrom(ds, 1, x);
    InverseUndoes(Fold(ds, 1, 0), x);
  }

  // ------------------------------------------------------------ Aadhaar numbers

  predicate WellFormed(s: Bytes) {
    |s| == 12 && '2' as int <= s[0] <= '9' as int && forall i :: 0 <= i < |s| ==> '0' as int <= s[i] <= '9' as int
  }

  /** The digits of a number from least to most significant. */
  function Digits(s: Bytes): seq<Digit>
    requires forall i :: 0 <= i < |s| ==> '0' as int <= s[i] <= '9' as int
  {
    seq(|s|, i requires 0 <= i < |s| => s[|s| - 1 - i] - '0' as int)
  }

  predicate Valid(s: Bytes) {
    WellFormed(s) && Fold(Digits(s), 0, 0) == 0
  }

  lemma FoldStep(ds: seq<Digit>, i: nat, c: Digit)
    requires i < |ds|
    ensures Fold(ds[i..], i, c) == Fold(ds[i + 1..], i + 1, Times(c, Permuted(i, ds[i])))
  {
    assert ds[i..][1..] == ds[i + 1..];
  }

  method ValidateAadhaarSyntax(aadhaar: Bytes) returns (ok: bool)
    ensures ok <==> Valid(aadhaar)
  {
    if |aadhaar| != 12 || !('2' as int <= aadhaar[0] <= '9' as int) { return false; }
    if !(forall i :: 0 <= i < |aadhaar| ==> '0' as int <= aadhaar[i] <= '9' as int) { return false; }
    var c: Digit := 0;
    ghost var ds := Digits(aadhaar);
    for i := 0 to |aadhaar|
      invariant Fold(ds[i..], i, c) == Fold(ds, 0, 0)
    {
      var digit: Digit := aadhaar[|aadhaar| - 1 - i] - '0' as int;
      assert digit == ds[i];
      FoldStep(ds, i, c);
      c := Times(c, Permuted(i, digit));
    }
    ok := c == 0;
  }

  /** The first eleven characters are eleven digits, and the first of them is 2 to 9. */
  predicate IsPrefix(s: Bytes) {
    |s| == 11 && 50 <= s[0] && forall i :: 0 <= i < |s| ==> 48 <= s[i] <= 57
  }

  /** Eleven characters begin a valid number exactly when they are such digits, and then exactly one does complete it. */
  lemma OneNumberPerPrefix(s: Bytes)
    requires |s| == 11
    ensures (exists check :: Valid(s + [check])) <==> IsPrefix(s)
    ensures forall check, other :: Valid(s + [check]) && Valid(s + [other]) ==> check == other
  {
    forall b: Byte | Valid(s + [b]) ensures IsPrefix(s) && IsCheckDigit(s, b) {
      assert forall i :: 0 <= i < 11 ==> (s + [b])[i] == s[i];
      assert (s + [b])[11] == b;
      CheckDigitCompletes(s, b);
    }
    if IsPrefix(s) {
      var check: Byte := Inverse(Fold(Digits(s), 1, 0)) + 48;
      CheckDigitCompletes(s, check);
    }
  }

  predicate IsCheckDigit(s: Bytes, b: Byte)
    requires IsPrefix(s)
  {
    b == Inverse(Fold(Digits(s), 1, 0)) + 48
  }

  lemma CheckDigitCompletes(s: Bytes, b: Byte)
    requires IsPrefix(s) && 48 <= b <= 57
    ensures Valid(s + [b]) <==> IsCheckDigit(s, b)
  {
    assert Digits(s + [b]) == [b - 48] + Digits(s);
    CheckDigitUnique(Digits(s), b - 48);
  }

  /** No valid number becomes another valid one by changing one character. */
  lemma SingleErrorDetected(s: Bytes, k: nat, x: Byte)
    requires Valid(s) && k < |s| && s[k] != x
    ensures !Valid(s[k := x])
  {
    var t := s[k := x];
    if WellFormed(t) {
      assert t[k] == x;
      SingleErrorChangesFold(Digits(s), 0, 0, |s| - 1 - k, x - '0' as int);
      assert Digits(t) == Digits(s)[|s| - 1 - k := x - '0' as int];
    }
  }

  /** … nor by swapping two different neighbours. */
  lemma TranspositionDetected(s: Bytes, k: nat)
    requires Valid(s) && k + 1 < |s| && s[k] != s[k + 1]
    ensures !Valid(Swapped(s, k))
  {
    var t := Swapped(s, k);
    if WellFormed(t) {
      TranspositionChangesFold(Digits(s), 0, 0, |s| - 2 - k);
      DigitsOfSwap(s, k);
    }
  }

  lemma DigitsOfSwap(s: Bytes, k: nat)
    requires k + 1 < |s| && (forall i :: 0 <= i < |s| ==> '0' as int <= s[i] <= '9' as int)
    requires forall i :: 0 <= i < |s| ==> '0' as int <= Swapped(s, k)[i] <= '9' as int
    ensures Digits(Swapped(s, k)) == Swapped(Digits(s), |s| - 2 - k)
  {
  }
}
