/**
 * The name of the shared-memory file behind every pixel buffer:
 * `create_shm_file` fills the six `X` of the template `"/wl_shm-XXXXXX"`
 * in place with `randname`, six letters drawn from the nanoseconds of the
 * real-time clock. The clock reading is a parameter here.
 *
 * `randname` works on a non-negative `long`, for which `r & 15`, `r & 16`
 * and `r >>= 2` are `r % 16`, `16 * (r / 16 % 2)` and `r / 4`; the model
 * states them in that arithmetic form.
 */
module ShmName {
  import opened Pixels

  /** The C array `"/wl_shm-XXXXXX"`, with its terminating NUL. */
  const Template: seq<char> := "/wl_shm-XXXXXX\0"

  /** The prefix every name keeps. */
  const Prefix: seq<char> := "/wl_shm-"

  /** Nanoseconds of a `timespec`: a `long` in `[0, 10^9)`. */
  type Nanos = r: int | 0 <= r < 1_000_000_000

  /**
   * One character of `randname`: `'A' + (r & 15) + (r & 16) * 2`, which is
   * one of `'A'..'P'` when bit 4 of `r` is clear and one of `'a'..'p'` when
   * it is set.
   */
  function Letter(r: nat): (c: char)
    ensures 'A' <= c <= 'P' || 'a' <= c <= 'p'
    ensures ('a' <= c) <==> r / 16 % 2 == 1
  {
    (65 + r % 16 + (r / 16 % 2) * 16 * 2) as char
  }

  /** The clock reading after `j` of the shifts `r >>= 2` that follow each character. */
  function Shifted(r: nat, j: nat): (s: nat)
    ensures s <= r
    ensures j >= 1 ==> 4 * s <= r
  {
    if j == 0 then r else Shifted(r, j - 1) / 4
  }

  /** The six letters `randname` writes for clock reading `r`. */
  function Letters(r: nat): (s: seq<char>)
    ensures |s| == 6
    ensures forall j :: 0 <= j < 6 ==> 'A' <= s[j] <= 'P' || 'a' <= s[j] <= 'p'
  {
    seq(6, j requires 0 <= j < 6 => Letter(Shifted(r, j)))
  }

  /** Two letters are the same exactly when the five low bits of their readings are. */
  lemma LetterInjective(x: nat, y: nat)
    ensures Letter(x) == Letter(y) <==> x % 32 == y % 32
  {
    LowFive(x);
    LowFive(y);
    assert Letter(x) as int == 65 + x % 16 + 32 * (x / 16 % 2);
    assert Letter(y) as int == 65 + y % 16 + 32 * (y / 16 % 2);
  }

  /** The five low bits: the four below bit 4, and bit 4. */
  lemma LowFive(x: nat)
    ensures x % 32 == x % 16 + 16 * (x / 16 % 2)
  {
    var q := x / 16;
    assert x == 16 * q + x % 16;
    assert q == 2 * (q / 2) + q % 2;
    DivModBy(x, 32, q / 2, x % 16 + 16 * (q % 2));
  }

  /**
   * The name keeps 15 bits of the clock reading and only those: two readings
   * give the same letters exactly when they agree modulo `2^15`. The six
   * five-bit windows overlap, each starting two bits above the last.
   */
  lemma LettersIdentify(r1: nat, r2: nat)
    ensures Letters(r1) == Letters(r2) <==> r1 % 32768 == r2 % 32768
  {
    Low15(r1);
    Low15(r2);
    if Letters(r1) == Letters(r2) {
      WindowsFromLetters(r1, r2);
      DigitsFromWindows(r1, r2);
    }
    if r1 % 32768 == r2 % 32768 {
      PackDigits(r1);
      PackDigits(r2);
      WindowsFromDigits(r1, r2);
      LettersFromWindows(r1, r2);
    }
  }

  /** Equal names mean equal five-bit windows. */
  lemma WindowsFromLetters(r1: nat, r2: nat)
    requires Letters(r1) == Letters(r2)
    ensures forall j | 0 <= j < 6 :: Shifted(r1, j) % 32 == Shifted(r2, j) % 32
  {
    forall j | 0 <= j < 6 ensures Shifted(r1, j) % 32 == Shifted(r2, j) % 32 {
      assert Letters(r1)[j] == Letter(Shifted(r1, j)) && Letters(r2)[j] == Letter(Shifted(r2, j));
      LetterInjective(Shifted(r1, j), Shifted(r2, j));
    }
  }

  /** Equal five-bit windows mean equal names. */
  lemma LettersFromWindows(r1: nat, r2: nat)
    requires forall j | 0 <= j < 6 :: Shifted(r1, j) % 32 == Shifted(r2, j) % 32
    ensures Letters(r1) == Letters(r2)
  {
    forall j | 0 <= j < 6 ensures Letters(r1)[j] == Letters(r2)[j] {
      LetterInjective(Shifted(r1, j), Shifted(r2, j));
    }
  }

  /** Digit `j` of the reading in base 4 (the last one, bits 10 to 14, in base 32). */
  function Digit(r: nat, j: nat): nat {
    if j < 5 then Shifted(r, j) % 4 else Shifted(r, 5) % 32
  }

  /** The low 15 bits of a reading, put back together from its digits. */
  function Pack(r: nat): nat {
    Digit(r, 0) + 4 * Digit(r, 1) + 16 * Digit(r, 2) + 64 * Digit(r, 3) + 256 * Digit(r, 4) + 1024 * Digit(r, 5)
  }

  /** The low 15 bits of a reading are its packed digits. */
  lemma Low15(r: nat)
    ensures r % 32768 == Pack(r)
  {
    DigitStep(r, 0);
    DigitStep(r, 1);
    DigitStep(r, 2);
    DigitStep(r, 3);
    DigitStep(r, 4);
    var s5 := Shifted(r, 5);
    assert s5 == 32 * (s5 / 32) + Digit(r, 5);
    assert r == Shifted(r, 0);
    DivModBy(r, 32768, s5 / 32, Pack(r));
  }

  /** A reading is four times its next shift plus its digit. */
  lemma DigitStep(r: nat, j: nat)
    requires j < 5
    ensures Shifted(r, j) == 4 * Shifted(r, j + 1) + Digit(r, j)
  {
  }

  /** Each digit can be read back from the packed value. */
  lemma PackDigits(r: nat)
    ensures Pack(r) % 4 == Digit(r, 0)
    ensures Pack(r) / 4 % 4 == Digit(r, 1)
    ensures Pack(r) / 16 % 4 == Digit(r, 2)
    ensures Pack(r) / 64 % 4 == Digit(r, 3)
    ensures Pack(r) / 256 % 4 == Digit(r, 4)
    ensures Pack(r) / 1024 == Digit(r, 5)
  {
    var d0, d1, d2, d3, d4, d5 := Digit(r, 0), Digit(r, 1), Digit(r, 2), Digit(r, 3), Digit(r, 4), Digit(r, 5);
    var p4 := d4 + 4 * d5;
    var p3 := d3 + 4 * p4;
    var p2 := d2 + 4 * p3;
    var p1 := d1 + 4 * p2;
    DivModBy(Pack(r), 4, p1, d0);
    DivModBy(Pack(r), 16, p2, d0 + 4 * d1);
    DivModBy(Pack(r), 64, p3, d0 + 4 * d1 + 16 * d2);
    DivModBy(Pack(r), 256, p4, d0 + 4 * d1 + 16 * d2 + 64 * d3);
    DivModBy(Pack(r), 1024, d5, d0 + 4 * d1 + 16 * d2 + 64 * d3 + 256 * d4);
    DivModBy(p1, 4, p2, d1);
    DivModBy(p2, 4, p3, d2);
    DivModBy(p3, 4, p4, d3);
    DivModBy(p4, 4, d5, d4);
  }

  /** The five bits a letter is drawn from, from a reading and its next two shifts. */
  lemma WindowOf(s: nat, t: nat, u: nat)
    requires t == s / 4 && u == t / 4
    ensures s % 32 == s % 4 + 4 * (t % 4) + 16 * (u % 2)
  {
    assert s == s % 4 + 4 * (t % 4) + 16 * (u % 2) + 32 * (u / 2);
    DivModBy(s, 32, u / 2, s % 4 + 4 * (t % 4) + 16 * (u % 2));
  }

  /** The window of letter `j` in terms of the digits. */
  lemma WindowDigits(r: nat, j: nat)
    requires j < 6
    ensures Shifted(r, j) % 32 ==
      if j < 4 then Digit(r, j) + 4 * Digit(r, j + 1) + 16 * (Digit(r, j + 2) % 2)
      else if j == 4 then Digit(r, 4) + 4 * (Digit(r, 5) % 8)
      else Digit(r, 5)
  {
    if j < 4 {
      WindowOf(Shifted(r, j), Shifted(r, j + 1), Shifted(r, j + 2));
      if j == 3 {
        ModMod(Shifted(r, 5), 2, 16);
      } else {
        ModMod(Shifted(r, j + 2), 2, 2);
      }
    } else if j == 4 {
      var s4, s5 := Shifted(r, 4), Shifted(r, 5);
      ModMod(s5, 8, 4);
      DivModBy(s4, 32, s5 / 8, Digit(r, 4) + 4 * (s5 % 8));
    }
  }

  lemma DigitsFromWindows(r1: nat, r2: nat)
    requires forall j | 0 <= j < 6 :: Shifted(r1, j) % 32 == Shifted(r2, j) % 32
    ensures Pack(r1) == Pack(r2)
  {
    forall j | 0 <= j < 5 ensures Digit(r1, j) == Digit(r2, j) {
      ModMod(Shifted(r1, j), 4, 8);
      ModMod(Shifted(r2, j), 4, 8);
    }
  }

  lemma WindowsFromDigits(r1: nat, r2: nat)
    requires forall j | 0 <= j < 6 :: Digit(r1, j) == Digit(r2, j)
    ensures forall j | 0 <= j < 6 :: Shifted(r1, j) % 32 == Shifted(r2, j) % 32
  {
    forall j | 0 <= j < 6 ensures Shifted(r1, j) % 32 == Shifted(r2, j) % 32 {
      WindowDigits(r1, j);
      WindowDigits(r2, j);
    }
  }

  /**
   * `randname`: writes the six letters for clock reading `nsec` over
   * `buf[start..start + 6]`, shifting the reading right by two after each;
   * no other cell changes.
   */
  method RandName(buf: array<char>, start: nat, nsec: Nanos)
    requires start + 6 <= buf.Length
    modifies buf
    ensures buf[start..start + 6] == Letters(nsec)
    ensures forall k :: 0 <= k < buf.Length && !(start <= k < start + 6) ==> buf[k] == old(buf[k])
  {
    var r: nat := nsec;
    for i := 0 to 6
      invariant r == Shifted(nsec, i)
      invariant forall j :: 0 <= j < i ==> buf[start + j] == Letter(Shifted(nsec, j))
      invariant forall k :: 0 <= k < buf.Length && !(start <= k < start + i) ==> buf[k] == old(buf[k])
    {
      buf[start + i] := Letter(r);
      r := r / 4;
    }
  }

  /**
   * The name `create_shm_file` passes to `shm_open`: the template with
   * `randname` applied at `sizeof(name) - 7`, the first `X`. It keeps the
   * prefix and the terminating NUL, and its six letters come from the
   * clock reading.
   */
  method ShmFileName(nsec: Nanos) returns (name: seq<char>)
    ensures |name| == |Template| == 15
    ensures name[..8] == Prefix && name[14] == '\0'
    ensures name[8..14] == Letters(nsec)
    ensures forall k :: 8 <= k < 14 ==> 'A' <= name[k] <= 'P' || 'a' <= name[k] <= 'p'
  {
    var buf := new char[|Template|](i requires 0 <= i < |Template| => Template[i]);
    RandName(buf, |Template| - 7, nsec);
    name := buf[..];
    assert name[..8] == Template[..8];
  }
}
