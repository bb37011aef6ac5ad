/**
 * The password gate of auth.js: the 32-bit string hash `hashPassword`, the
 * `checkAuth` test of the stored token, and the submit handler's comparison
 * of the hashed input with the stored password hash.
 *
 * Numbers follow ECMAScript: `<<` and `&` convert their operands with
 * ToInt32 (wrap-around to a signed 32-bit value), and `toString(16)` writes a
 * non-negative integer in lower-case hexadecimal without leading zeros.
 * `localStorage` is a parameter: the value stored under `zno_auth`, or None.
 */
module Auth {
  import opened Wrappers
  import opened Text

  const TwoTo31: int := 0x8000_0000
  const TwoTo32: int := 0x1_0000_0000

  /** `PASSWORD_HASH`. */
  const PasswordHash: string := "fa691989"

  predicate IsInt32(x: int) {
    -TwoTo31 <= x < TwoTo31
  }

  /** ECMAScript ToInt32 on an integral value: the signed 32-bit value
      congruent to `x` modulo 2^32. */
  function ToInt32(x: int): (r: int)
    ensures IsInt32(r)
    ensures IsInt32(x) ==> r == x
  {
    (x + TwoTo31) % TwoTo32 - TwoTo31
  }

  function Abs(x: int): nat {
    if x < 0 then -x else x
  }

  // ---- The hash ----

  /** One loop iteration of `hashPassword`:
      `hash = (hash << 5) - hash + char; hash = hash & hash;` */
  function Step(h: int, c: char): int {
    ToInt32(ToInt32(h * 32) - h + c as int)
  }

  /** The value of `hash` after the loop has run over all of `s`. */
  function HashOf(s: string): (h: int)
    ensures IsInt32(h)
  {
    if s == [] then 0 else Step(HashOf(s[..|s| - 1]), s[|s| - 1])
  }

  /** The reference polynomial: the sum of `s[i] * 31^(|s|-1-i)` over the
      character codes, with no wrap-around. */
  function Poly31(s: string): int {
    if s == [] then 0 else 31 * Poly31(s[..|s| - 1]) + s[|s| - 1] as int
  }

  /** Lower-case hexadecimal digit for `d`. */
  function HexDigit(d: nat): char
    requires d < 16
  {
    if d < 10 then ('0' as int + d) as char else ('a' as int + d - 10) as char
  }

  predicate IsHexDigit(c: char) {
    '0' <= c <= '9' || 'a' <= c <= 'f'
  }

  function DigitValue(c: char): (d: nat)
    requires IsHexDigit(c)
    ensures d < 16 && HexDigit(d) == c
  {
    if c <= '9' then c as int - '0' as int else c as int - 'a' as int + 10
  }

  /** `n.toString(16)` for a non-negative integer. */
  function Hex(n: nat): (r: string)
    ensures |r| >= 1 && forall i :: 0 <= i < |r| ==> IsHexDigit(r[i])
  {
    if n < 16 then [HexDigit(n)] else Hex(n / 16) + [HexDigit(n % 16)]
  }

  /** The value of a string of hexadecimal digits. */
  function HexValue(s: string): nat
    requires forall i :: 0 <= i < |s| ==> IsHexDigit(s[i])
  {
    if s == [] then 0 else 16 * HexValue(s[..|s| - 1]) + DigitValue(s[|s| - 1])
  }

  /** `hashPassword(pass)`. */
  method HashPassword(pass: string) returns (hex: string)
    ensures hex == Hex(Abs(HashOf(pass)))
  {
    var hash := 0;
    for i := 0 to |pass|
      invariant hash == HashOf(pass[..i])
    {
      assert pass[..i + 1][..i] == pass[..i];
      hash := Step(hash, pass[i]);
    }
    assert pass[..|pass|] == pass;
    hex := Hex(Abs(hash));
  }

  /** `checkAuth()`, given what `localStorage` holds under `zno_auth`: it
      holds exactly for the hexadecimal form of 0xfa691989. */
  function CheckAuth(stored: Option<string>): (authed: bool)
    ensures authed <==> stored == Some(Hex(0xfa691989))
  {
    PasswordHashFromValue();
    stored == Some(PasswordHash)
  }

  /** The submit handler as written: the value it stores under `zno_auth`
      when the hashed, trimmed input matches, or None when it rejects. As
      written it rejects every input: the absolute value of a signed 32-bit
      hash is at most 2^31, below the value 0xfa691989 of the stored hash. */
  function Submit(input: string): (stored: Option<string>)
    ensures stored == None
  {
    var hash := Hex(Abs(HashOf(Trim(input))));
    HexIsPasswordHash(Abs(HashOf(Trim(input))));
    if hash == PasswordHash then Some(hash) else None
  }

  /** The hash printed as an unsigned 32-bit value, `(hash >>> 0).toString(16)`. */
  function UnsignedHex(pass: string): string {
    Hex(HashOf(pass) % TwoTo32)
  }

  /** The submit handler with the unsigned hash: it accepts exactly the
      inputs whose trimmed text hashes to 0xfa691989 modulo 2^32, and what it
      stores then passes `checkAuth`. */
  function CorrectedSubmit(input: string): (stored: Option<string>)
    ensures stored.Some? <==> HashOf(Trim(input)) % TwoTo32 == 0xfa691989
    ensures stored.Some? ==> CheckAuth(stored)
  {
    var hash := UnsignedHex(Trim(input));
    HexIsPasswordHash(HashOf(Trim(input)) % TwoTo32);
    if hash == PasswordHash then Some(hash) else None
  }

  // ---- Arithmetic of ToInt32 ----

  lemma ToInt32Quotient(x: int)
    ensures ToInt32(x) == x - TwoTo32 * ((x + TwoTo31) / TwoTo32)
  {
  }

  /** ToInt32 only depends on its argument modulo 2^32. */
  lemma ToInt32Periodic(x: int, k: int)
    ensures ToInt32(x + TwoTo32 * k) == ToInt32(x)
  {
    var q := (x + TwoTo31) / TwoTo32;
    var r := (x + TwoTo31) % TwoTo32;
    assert x + TwoTo32 * k + TwoTo31 == TwoTo32 * (q + k) + r;
    assert (x + TwoTo32 * k + TwoTo31) / TwoTo32 == q + k;
  }

  /** The shift-and-subtract step multiplies by 31 and adds the character
      code, modulo 2^32. */
  lemma StepIsTimes31(h: int, c: char)
    requires IsInt32(h)
    ensures Step(h, c) == ToInt32(31 * h + c as int)
  {
    var q := (h * 32 + TwoTo31) / TwoTo32;
    ToInt32Quotient(h * 32);
    ToInt32Periodic(31 * h + c as int, -q);
  }

  /** `hashPassword`'s loop computes Java's `String.hashCode`: the
      polynomial in 31 over the character codes, reduced to a signed 32-bit
      value. */
  lemma {:induction false} HashIsPoly31(s: string)
    ensures HashOf(s) == ToInt32(Poly31(s))
  {
    if s != [] {
      var init, c := s[..|s| - 1], s[|s| - 1];
      var p := Poly31(init);
      HashIsPoly31(init);
      StepIsTimes31(HashOf(init), c);
      var q := (p + TwoTo31) / TwoTo32;
      ToInt32Quotient(p);
      ToInt32Periodic(31 * p + c as int, -31 * q);
      assert 31 * ToInt32(p) + c as int == 31 * p + c as int + TwoTo32 * (-31 * q);
    }
  }

  /** The hash of the empty password is 0, printed as "0". */
  lemma EmptyHash()
    ensures HashOf("") == 0
    ensures Hex(Abs(HashOf(""))) == "0"
  {
  }

  // ---- Properties of the hexadecimal form ----

  lemma {:induction false} HexRoundTrip(n: nat)
    ensures HexValue(Hex(n)) == n
  {
    if n >= 16 {
      HexRoundTrip(n / 16);
      var r := Hex(n);
      assert r[..|r| - 1] == Hex(n / 16);
    }
  }

  /** `toString(16)` writes no leading zero, except for 0 itself. */
  lemma {:induction false} HexNoLeadingZero(n: nat)
    ensures Hex(n)[0] == '0' <==> n == 0
  {
    if n >= 16 {
      HexNoLeadingZero(n / 16);
    }
  }

  /** Distinct numbers print differently. */
  lemma HexInjective(a: nat, b: nat)
    ensures Hex(a) == Hex(b) <==> a == b
  {
    HexRoundTrip(a);
    HexRoundTrip(b);
  }

  /** A number below 16^k takes at most k digits. */
  lemma {:induction false} HexLength(n: nat, k: nat)
    requires 1 <= k && n < Pow16(k)
    ensures |Hex(n)| <= k
  {
    if n >= 16 {
      HexLength(n / 16, k - 1);
    }
  }

  function Pow16(k: nat): nat {
    if k == 0 then 1 else 16 * Pow16(k - 1)
  }

  /** The value of the stored password hash. */
  lemma PasswordHashValue()
    ensures HexValue(PasswordHash) == 0xfa691989
  {
    var s := PasswordHash;
    assert s[..1] == "f" && s[..2] == "fa" && s[..3] == "fa6" && s[..4] == "fa69";
    assert s[..5] == "fa691" && s[..6] == "fa6919" && s[..7] == "fa69198";
    assert "fa69198"[..6] == "fa6919" && "fa6919"[..5] == "fa691" && "fa691"[..4] == "fa69";
    assert "fa69"[..3] == "fa6" && "fa6"[..2] == "fa" && "fa"[..1] == "f" && "f"[..0] == "";
  }

  // ---- Properties of hashPassword and the gate ----

  /** `hashPassword` always returns one to eight lower-case hexadecimal
      digits with no leading zero, whose value is at most 2^31. */
  lemma HashPasswordShape(pass: string)
    ensures var hex := Hex(Abs(HashOf(pass)));
      && 1 <= |hex| <= 8
      && (forall i :: 0 <= i < |hex| ==> IsHexDigit(hex[i]))
      && (hex[0] == '0' ==> hex == "0")
      && HexValue(hex) <= TwoTo31
  {
    var n := Abs(HashOf(pass));
    assert Pow16(8) == TwoTo32;
    HexLength(n, 8);
    HexRoundTrip(n);
    HexNoLeadingZero(n);
    if n < 16 {
      assert n == 0 ==> Hex(n) == "0";
    }
  }

  /** A number prints as the stored hash exactly when it is 0xfa691989. */
  lemma HexIsPasswordHash(n: nat)
    ensures Hex(n) == PasswordHash <==> n == 0xfa691989
  {
    HexRoundTrip(n);
    PasswordHashValue();
    PasswordHashFromValue();
  }

  /** The tokens `checkAuth` accepts are exactly those the corrected handler
      can store, and none of them can be stored by the handler as written. */
  lemma CheckAuthTokens(stored: Option<string>)
    ensures CheckAuth(stored) <==> stored.Some? && exists input :: CorrectedSubmit(input) == stored
    ensures CheckAuth(stored) ==> forall input :: Submit(input) != stored
  {
    if CheckAuth(stored) {
      WitnessAcceptedOnlyWhenCorrected();
      PasswordHashFromValue();
      assert CorrectedSubmit("ezrorooi") == stored;
    }
  }

  /** Appending a digit to a number's hexadecimal form. */
  lemma HexSnoc(n: nat, d: nat)
    requires 0 < n && d < 16
    ensures Hex(16 * n + d) == Hex(n) + [HexDigit(d)]
  {
  }

  lemma PasswordHashFromValue()
    ensures Hex(0xfa691989) == PasswordHash
  {
    HexSnoc(0xf, 0xa);
    HexSnoc(0xfa, 0x6);
    HexSnoc(0xfa6, 0x9);
    HexSnoc(0xfa69, 0x1);
    HexSnoc(0xfa691, 0x9);
    HexSnoc(0xfa6919, 0x8);
    HexSnoc(0xfa69198, 0x9);
  }

  /** Appending a character runs one more loop iteration. */
  lemma HashSnoc(s: string, c: char, t: string)
    requires t == s + [c]
    ensures HashOf(t) == Step(HashOf(s), c)
  {
    assert t[..|s|] == s;
  }

  /** The loop iterations over "ezrorooi". */
  lemma WitnessSteps()
    ensures Step(0, 'e') == 101
    ensures Step(101, 'z') == 3253
    ensures Step(3253, 'r') == 100957
    ensures Step(100957, 'o') == 3129778
    ensures Step(3129778, 'r') == 97023232
    ensures Step(97023232, 'o') == -1287246993
    ensures Step(-1287246993, 'o') == -1249951008
    ensures Step(-1249951008, 'i') == -93775479
  {
  }

  /** The hash of "ezrorooi", one character at a time. */
  lemma WitnessHash()
    ensures HashOf("ezrorooi") == -93775479
  {
    WitnessSteps();
    HashSnoc("", 'e', "e");
    HashSnoc("e", 'z', "ez");
    HashSnoc("ez", 'r', "ezr");
    HashSnoc("ezr", 'o', "ezro");
    HashSnoc("ezro", 'r', "ezror");
    HashSnoc("ezror", 'o', "ezroro");
    HashSnoc("ezroro", 'o', "ezroroo");
    HashSnoc("ezroroo", 'i', "ezrorooi");
  }

  /** "ezrorooi" hashes to 0xfa691989 as an unsigned value, yet
      `hashPassword` prints it as "596e677"; the corrected handler accepts
      it and the handler as written does not. */
  lemma WitnessAcceptedOnlyWhenCorrected()
    ensures Hex(Abs(HashOf("ezrorooi"))) == "596e677"
    ensures UnsignedHex("ezrorooi") == PasswordHash
    ensures CorrectedSubmit("ezrorooi") == Some(PasswordHash)
    ensures Submit("ezrorooi") == None
  {
    WitnessHash();
    assert -93775479 % TwoTo32 == 0xfa691989;
    PasswordHashFromValue();
    WitnessSignedHex();
    assert Trim("ezrorooi") == "ezrorooi";
  }

  lemma WitnessSignedHex()
    ensures Hex(93775479) == "596e677"
  {
    HexSnoc(0x5, 0x9);
    HexSnoc(0x59, 0x6);
    HexSnoc(0x596, 0xe);
    HexSnoc(0x596e, 0x6);
    HexSnoc(0x596e6, 0x7);
    HexSnoc(0x596e67, 0x7);
  }
}
