/** Specification of the two classical substitution ciphers of the `Security`
    class: a Caesar cipher whose key is a sequence of decimal digits and a
    Vigenère cipher whose key is a keyword, both over the 26 lower-case Latin
    letters. Everything here is a pure function of its inputs; the class in
    module Engine runs the same computation with the source's loop and is
    proved to agree with `Encrypt` and `Decrypt` below. */
module Cipher {

  /** The failures the cipher reports to its caller. */
  datatype CipherError =
    | InvalidKey            // a key character cannot be turned into a shift
    | UnsupportedAlgorithm  // the algorithm name is neither "cesar" nor "vigenere"
    | EmptyKey              // the key is empty but the text has a letter to shift

  datatype Result<T> = Success(value: T) | Failure(error: CipherError)

  datatype Option<T> = None | Some(value: T)

  /** Which way the shifts are applied. */
  datatype Direction = Encode | Decode {
    function Inverse(): (d: Direction)
      ensures d != this
    {
      if Encode? then Decode else Encode
    }
  }

  const Alphabet: string := "abcdefghijklmnopqrstuvwxyz"

  predicate IsLetter(c: char) {
    'a' <= c <= 'z'
  }

  /** The alphabet holds the letters 'a'..'z' in order. */
  lemma AlphabetIsAtoZ()
    ensures |Alphabet| == 26
    ensures forall x :: 0 <= x < 26 ==> Alphabet[x] as int == 'a' as int + x
  {
  }

  /** Python's `char in alphabet` is `IsLetter`. */
  lemma InAlphabet(c: char)
    ensures c in Alphabet <==> IsLetter(c)
  {
    AlphabetIsAtoZ();
    if IsLetter(c) {
      assert Alphabet[c as int - 'a' as int] == c;
    }
  }

  /** Python's `alphabet.find(c)`: the position of `c` in the alphabet, or -1. */
  function Find(c: char): (r: int)
    ensures -1 <= r < 26
    ensures r == -1 <==> c !in Alphabet
    ensures r >= 0 ==> Alphabet[r] == c
  {
    AlphabetIsAtoZ();
    InAlphabet(c);
    if IsLetter(c) then c as int - 'a' as int else -1
  }

  /** `Find` undoes indexing into the alphabet. */
  lemma FindAlphabet(x: int)
    requires 0 <= x < 26
    ensures Find(Alphabet[x]) == x
  {
    AlphabetIsAtoZ();
  }

  // ---------------------------------------------------------------------
  // Lower-casing (ASCII only)

  predicate IsUpper(c: char) {
    'A' <= c <= 'Z'
  }

  function LowerChar(c: char): (r: char)
    ensures !IsUpper(r)
    ensures IsUpper(c) ==> IsLetter(r) && r as int - 'a' as int == c as int - 'A' as int
    ensures !IsUpper(c) ==> r == c
  {
    if IsUpper(c) then (c as int - 'A' as int + 'a' as int) as char else c
  }

  predicate NoUpper(s: string) {
    forall j :: 0 <= j < |s| ==> !IsUpper(s[j])
  }

  /** Python's `str.lower()`, restricted to the ASCII letters A-Z. */
  function Lower(s: string): (r: string)
    ensures |r| == |s| && NoUpper(r)
    ensures forall j :: 0 <= j < |s| ==> r[j] == LowerChar(s[j])
  {
    seq(|s|, j requires 0 <= j < |s| => LowerChar(s[j]))
  }

  /** A string without upper-case letters is its own lower-case form; in
      particular lower-casing twice is lower-casing once. */
  lemma LowerFixed(s: string)
    requires NoUpper(s)
    ensures Lower(s) == s
  {
  }

  lemma LowerIdempotent(s: string)
    ensures Lower(Lower(s)) == Lower(s)
  {
    LowerFixed(Lower(s));
  }

  // ---------------------------------------------------------------------
  // Key derivation

  predicate IsDigit(c: char) {
    '0' <= c <= '9'
  }

  /** Caesar key: `[int(x) for x in key]`, one shift per digit character;
      the first non-digit character fails the whole derivation. */
  function DigitShifts(key: string): (r: Result<seq<int>>)
    ensures r.Success? <==> forall j :: 0 <= j < |key| ==> IsDigit(key[j])
    ensures r.Failure? ==> r.error == InvalidKey
    ensures r.Success? ==> |r.value| == |key|
    ensures r.Success? ==> forall j :: 0 <= j < |key| ==>
              0 <= r.value[j] <= 9 && key[j] as int == '0' as int + r.value[j]
  {
    if key == [] then Success([])
    else if !IsDigit(key[0]) then Failure(InvalidKey)
    else match DigitShifts(key[1..])
      case Failure(e) => Failure(e)
      case Success(rest) => Success([key[0] as int - '0' as int] + rest)
  }

  /** Vigenère key exactly as the source derives it:
      `[alphabet.find(x) for x in key.lower()]`. A character outside a-z
      yields -1; see `KeywordNonLetterBreaksRoundTrip`. */
  function KeywordShiftsAsWritten(key: string): (r: seq<int>)
    ensures |r| == |key|
    ensures forall j :: 0 <= j < |key| ==>
              -1 <= r[j] < 26 && (r[j] == -1 <==> !IsLetter(LowerChar(key[j])))
  {
    AlphabetIsAtoZ();
    seq(|key|, j requires 0 <= j < |key| => Find(LowerChar(key[j])))
  }

  /** Vigenère key with the out-of-alphabet case rejected: every character
      of the lower-cased key must be a letter, whose alphabet position is
      its shift. */
  function KeywordShifts(key: string): (r: Result<seq<int>>)
    ensures r.Success? <==> forall j :: 0 <= j < |key| ==> IsLetter(LowerChar(key[j]))
    ensures r.Failure? ==> r.error == InvalidKey
    ensures r.Success? ==> |r.value| == |key|
    ensures r.Success? ==> forall j :: 0 <= j < |key| ==>
              0 <= r.value[j] < 26 && Alphabet[r.value[j]] == LowerChar(key[j])
  {
    if key == [] then Success([])
    else if !IsLetter(LowerChar(key[0])) then Failure(InvalidKey)
    else match KeywordShifts(key[1..])
      case Failure(e) => Failure(e)
      case Success(rest) => Success([Find(LowerChar(key[0]))] + rest)
  }

  /** Wherever the source's derivation only meets letters, the corrected one
      succeeds and gives the same shifts. */
  lemma KeywordShiftsAgree(key: string)
    requires forall j :: 0 <= j < |key| ==> IsLetter(LowerChar(key[j]))
    ensures KeywordShifts(key) == Success(KeywordShiftsAsWritten(key))
  {
    var r := KeywordShifts(key).value;
    var w := KeywordShiftsAsWritten(key);
    forall j | 0 <= j < |key| ensures r[j] == w[j] {
      assert w[j] == Find(LowerChar(key[j]));
      assert Alphabet[r[j]] == LowerChar(key[j]);
      FindAlphabet(r[j]);
    }
    assert r == w;
  }

  predicate ValidShifts(shifts: seq<int>) {
    forall j :: 0 <= j < |shifts| ==> 0 <= shifts[j] < 26
  }

  predicate SupportedAlgorithm(algorithm: string) {
    algorithm == "cesar" || algorithm == "vigenere"
  }

  /** The key derivation step shared by `encode` and `decode`. */
  function DeriveShifts(algorithm: string, key: string): (r: Result<seq<int>>)
    ensures r.Failure? ==> r.error in {InvalidKey, UnsupportedAlgorithm}
    ensures (r.Failure? && r.error == UnsupportedAlgorithm) <==> !SupportedAlgorithm(algorithm)
    ensures r.Success? ==> ValidShifts(r.value) && |r.value| == |key|
    ensures r.Success? && algorithm == "cesar" ==> forall j :: 0 <= j < |key| ==> r.value[j] <= 9
  {
    if algorithm == "cesar" then DigitShifts(key)
    else if algorithm == "vigenere" then KeywordShifts(key)
    else Failure(UnsupportedAlgorithm)
  }

  // ---------------------------------------------------------------------
  // One letter: the single conditional wrap

  /** Encoding of one alphabet position: add the shift and subtract 26 once
      if the sum leaves the alphabet. */
  function ShiftUp(p: int, k: int): (r: int)
    ensures 0 <= p < 26 && 0 <= k < 26 ==> 0 <= r < 26 && r == (p + k) % 26
  {
    var n := p + k;
    if n > |Alphabet| - 1 then n - |Alphabet| else n
  }

  /** Decoding of one alphabet position: subtract the shift and add 26 once
      if the difference is negative. */
  function ShiftDown(p: int, k: int): (r: int)
    ensures 0 <= p < 26 && 0 <= k < 26 ==> 0 <= r < 26 && r == (p - k) % 26
  {
    var n := p - k;
    if n < 0 then n + |Alphabet| else n
  }

  function Step(d: Direction, p: int, k: int): (r: int) {
    match d
    case Encode => ShiftUp(p, k)
    case Decode => ShiftDown(p, k)
  }

  /** For in-range positions and shifts a step is addition (encode) or
      subtraction (decode) modulo 26. */
  lemma StepIsModular(d: Direction, p: int, k: int)
    requires 0 <= p < 26 && 0 <= k < 26
    ensures Step(d, p, k) == (if d == Encode then p + k else p - k) % 26
  {
  }

  /** The two single-wrap steps undo each other for in-range shifts. */
  lemma StepInverse(d: Direction, p: int, k: int)
    requires 0 <= p < 26 && 0 <= k < 26
    ensures 0 <= Step(d, p, k) < 26
    ensures Step(d.Inverse(), Step(d, p, k), k) == p
  {
  }

  // ---------------------------------------------------------------------
  // The whole text

  /** Number of letters in `s`: how far the key cursor has advanced
      (before wrapping) after reading `s`. */
  function LetterCount(s: string): (r: nat)
  {
    if s == [] then 0
    else LetterCount(s[..|s| - 1]) + (if IsLetter(s[|s| - 1]) then 1 else 0)
  }

  predicate HasLetter(s: string) {
    exists j :: 0 <= j < |s| && IsLetter(s[j])
  }

  /** The output character at position `j`: a letter is shifted by the key
      entry under the cursor, which has moved once per earlier letter and
      wraps at the key length; anything else passes through. */
  function CipherAt(d: Direction, t: string, shifts: seq<int>, j: nat): (r: char)
    requires ValidShifts(shifts) && shifts != [] && j < |t|
    ensures IsLetter(t[j]) <==> IsLetter(r)
    ensures !IsLetter(t[j]) ==> r == t[j]
  {
    AlphabetIsAtoZ();
    if IsLetter(t[j]) then
      Alphabet[Step(d, Find(t[j]), shifts[LetterCount(t[..j]) % |shifts|])]
    else t[j]
  }

  /** The cipher applied to an already lower-cased text. */
  function Transform(d: Direction, t: string, shifts: seq<int>): (r: Result<string>)
    requires ValidShifts(shifts)
    ensures r.Failure? <==> shifts == [] && HasLetter(t)
    ensures r.Failure? ==> r.error == EmptyKey
    ensures r.Success? ==> |r.value| == |t|
    ensures r.Success? ==> forall j :: 0 <= j < |t| ==>
              (IsLetter(r.value[j]) <==> IsLetter(t[j])) &&
              (!IsLetter(t[j]) ==> r.value[j] == t[j])
  {
    if shifts == [] then
      if HasLetter(t) then Failure(EmptyKey) else Success(t)
    else
      Success(seq(|t|, j requires 0 <= j < |t| => CipherAt(d, t, shifts, j)))
  }

  /** The letter at position `j` is shifted by the key entry at index
      (number of letters before `j`) mod (key length); by `StepIsModular`
      its new position is the sum (encode) or difference (decode) of its old
      position and that entry, modulo 26. */
  lemma TransformLetter(d: Direction, t: string, shifts: seq<int>, j: nat)
    requires ValidShifts(shifts) && Transform(d, t, shifts).Success?
    requires j < |t| && IsLetter(t[j])
    ensures shifts != []
    ensures var k := shifts[LetterCount(t[..j]) % |shifts|];
      Find(Transform(d, t, shifts).value[j]) == Step(d, Find(t[j]), k)
  {
    assert shifts != [] by {
      assert HasLetter(t);
    }
    var i := LetterCount(t[..j]) % |shifts|;
    var p, k := Find(t[j]), shifts[i];
    var n := Step(d, p, k);
    assert Transform(d, t, shifts).value[j] == Alphabet[n] by {
      CipherAtLetter(d, t, shifts, j, i);
    }
    FindAlphabet(n);
  }

  /** Two texts with letters at the same positions advance the key cursor
      identically. */
  lemma {:induction false} SameLetterCount(a: string, b: string, j: nat)
    requires |a| == |b| && j <= |a|
    requires forall m :: 0 <= m < |a| ==> (IsLetter(a[m]) <==> IsLetter(b[m]))
    ensures LetterCount(a[..j]) == LetterCount(b[..j])
  {
    if j > 0 {
      SameLetterCount(a, b, j - 1);
      assert a[..j][..j - 1] == a[..j - 1];
      assert b[..j][..j - 1] == b[..j - 1];
    }
  }

  /** One step of the source's key cursor: after a letter it moves on and
      wraps to 0 at the key length, after anything else it stays; either way
      it keeps counting the letters read so far, modulo the key length. */
  lemma CursorStep(t: string, n: nat, j: nat, i: nat)
    requires 0 < n && j < |t| && i == LetterCount(t[..j]) % n
    ensures LetterCount(t[..j + 1]) % n ==
              if IsLetter(t[j]) then (if i + 1 >= n then 0 else i + 1) else i
  {
    assert t[..j + 1][..j] == t[..j];
    if IsLetter(t[j]) {
      ModSucc(LetterCount(t[..j]), n);
    }
  }

  /** Euclidean division leaves a unique remainder. */
  lemma ModUnique(x: int, n: int, q: int, r: int)
    requires 0 <= r < n && x == q * n + r
    ensures x % n == r
  {
    var d := x / n - q;
    assert (x / n) * n == x - x % n;
    assert d * n == (x / n) * n - q * n;
    MulBounds(d, n);
  }

  /** A non-zero multiple of a positive number is at least that far from 0. */
  lemma MulBounds(d: int, n: int)
    requires 0 < n
    ensures d >= 1 ==> d * n >= n
    ensures d <= -1 ==> d * n <= -n
  {
    var a := if d >= 1 then d - 1 else if d <= -1 then -d - 1 else 0;
    assert 0 <= a * n;
    assert d >= 1 ==> d * n == a * n + n;
    assert d <= -1 ==> d * n == -(a * n) - n;
  }

  /** Counting one more moves the remainder on by one, wrapping to 0. */
  lemma ModSucc(a: nat, n: nat)
    requires 0 < n
    ensures (a + 1) % n == if a % n + 1 == n then 0 else a % n + 1
  {
    var q, r := a / n, a % n;
    assert a == q * n + r;
    if r + 1 == n {
      assert a + 1 == (q + 1) * n + 0;
      ModUnique(a + 1, n, q + 1, 0);
    } else {
      ModUnique(a + 1, n, q, r + 1);
    }
  }

  /** A letter under the cursor `i` becomes the alphabet entry at the
      single-wrap step of its position by `shifts[i]`. */
  lemma CipherAtLetter(d: Direction, t: string, shifts: seq<int>, j: nat, i: nat)
    requires ValidShifts(shifts) && shifts != [] && j < |t| && IsLetter(t[j])
    requires i == LetterCount(t[..j]) % |shifts|
    ensures 0 <= Step(d, Find(t[j]), shifts[i]) < 26
    ensures CipherAt(d, t, shifts, j) == Alphabet[Step(d, Find(t[j]), shifts[i])]
  {
  }

  /** Applying the inverse direction with the same shifts restores the text:
      decode undoes encode and encode undoes decode. */
  lemma {:induction false} TransformRoundTrip(d: Direction, t: string, shifts: seq<int>)
    requires ValidShifts(shifts) && Transform(d, t, shifts).Success?
    ensures Transform(d.Inverse(), Transform(d, t, shifts).value, shifts) == Success(t)
  {
    var e := Transform(d, t, shifts).value;
    if shifts != [] {
      var r := Transform(d.Inverse(), e, shifts).value;
      forall j | 0 <= j < |t| ensures r[j] == t[j] {
        if IsLetter(t[j]) {
          SameLetterCount(e, t, j);
          var k := shifts[LetterCount(t[..j]) % |shifts|];
          var p := Find(t[j]);
          StepInverse(d, p, k);
          FindAlphabet(Step(d, p, k));
          assert r[j] == CipherAt(d.Inverse(), e, shifts, j);
        }
      }
      assert r == t;
    }
  }

  // ---------------------------------------------------------------------
  // encode / decode

  /** `Security(algorithm).encode(text, key)`. */
  function Encrypt(algorithm: string, text: string, key: string): (r: Result<string>)
  {
    match DeriveShifts(algorithm, key)
    case Failure(e) => Failure(e)
    case Success(shifts) => Transform(Encode, Lower(text), shifts)
  }

  /** `Security(algorithm).decode(text, key)`. */
  function Decrypt(algorithm: string, text: string, key: string): (r: Result<string>)
  {
    match DeriveShifts(algorithm, key)
    case Failure(e) => Failure(e)
    case Success(shifts) => Transform(Decode, Lower(text), shifts)
  }

  /** What encode promises about its output: same length as the input, every
      non-letter of the lower-cased text kept at its position, letters mapped
      to letters; and when it fails, why. */
  lemma EncryptShape(algorithm: string, text: string, key: string)
    ensures var r := Encrypt(algorithm, text, key);
      (r.Failure? <==> !SupportedAlgorithm(algorithm) || DeriveShifts(algorithm, key).Failure?
                       || (key == [] && HasLetter(Lower(text)))) &&
      (r.Success? ==> (|r.value| == |text| && NoUpper(r.value) &&
         forall j :: 0 <= j < |text| ==>
           (IsLetter(r.value[j]) <==> IsLetter(LowerChar(text[j]))) &&
           (!IsLetter(LowerChar(text[j])) ==> r.value[j] == LowerChar(text[j]))))
  {
  }

  /** Encode and decode fail on exactly the same inputs, with the same error. */
  lemma SameFailures(algorithm: string, text: string, key: string)
    ensures Encrypt(algorithm, text, key).Failure? <==> Decrypt(algorithm, text, key).Failure?
    ensures Encrypt(algorithm, text, key).Failure? ==>
              Encrypt(algorithm, text, key).error == Decrypt(algorithm, text, key).error
  {
  }

  /** A transformed lower-case text is still lower-case, so the second call's
      `text.lower()` leaves it unchanged. */
  lemma TransformKeepsLower(d: Direction, t: string, shifts: seq<int>)
    requires ValidShifts(shifts) && NoUpper(t) && Transform(d, t, shifts).Success?
    ensures Lower(Transform(d, t, shifts).value) == Transform(d, t, shifts).value
  {
    LowerFixed(Transform(d, t, shifts).value);
  }

  /** decode(encode(text, key), key) == text.lower(). */
  lemma {:induction false} EncryptThenDecrypt(algorithm: string, text: string, key: string)
    requires Encrypt(algorithm, text, key).Success?
    ensures Decrypt(algorithm, Encrypt(algorithm, text, key).value, key) == Success(Lower(text))
  {
    var shifts := DeriveShifts(algorithm, key).value;
    TransformKeepsLower(Encode, Lower(text), shifts);
    TransformRoundTrip(Encode, Lower(text), shifts);
  }

  /** encode(decode(text, key), key) == text.lower(). */
  lemma {:induction false} DecryptThenEncrypt(algorithm: string, text: string, key: string)
    requires Decrypt(algorithm, text, key).Success?
    ensures Encrypt(algorithm, Decrypt(algorithm, text, key).value, key) == Success(Lower(text))
  {
    var shifts := DeriveShifts(algorithm, key).value;
    TransformKeepsLower(Decode, Lower(text), shifts);
    TransformRoundTrip(Decode, Lower(text), shifts);
  }

  // ---------------------------------------------------------------------
  // The source's keyword derivation, as written

  /** Python's `alphabet[n]`: negative indices count from the end, anything
      outside -26..25 raises IndexError (None). */
  function PyAlphabetAt(n: int): (r: Option<char>)
    ensures r.Some? <==> -26 <= n < 26
    ensures 0 <= n < 26 ==> r == Some(Alphabet[n])
  {
    if 0 <= n < |Alphabet| then Some(Alphabet[n])
    else if -|Alphabet| <= n < 0 then Some(Alphabet[|Alphabet| + n])
    else None
  }

  /** With the keyword "!" the source derives the shift -1: encoding "a"
      reads `alphabet[-1]` and yields "z", but decoding "z" computes index 26
      and raises IndexError, so the round trip fails. */
  lemma KeywordNonLetterBreaksRoundTrip()
    ensures KeywordShiftsAsWritten("!") == [-1]
    ensures PyAlphabetAt(ShiftUp(Find('a'), -1)) == Some('z')
    ensures ShiftDown(Find('z'), -1) == 26 && PyAlphabetAt(26).None?
    ensures KeywordShifts("!") == Failure(InvalidKey)
  {
  }


  // ---------------------------------------------------------------------
  // Worked examples

  /** Shift key "3" moves 'x' to 'a' through the single wrap, and a key
      with a letter in it is refused before any text is looked at. */
  lemma CaesarExamples()
    ensures Alphabet[ShiftUp(Find('x'), 3)] == 'a'
    ensures Alphabet[ShiftDown(Find('a'), 3)] == 'x'
    ensures Encrypt("cesar", "test", "a1") == Failure(InvalidKey)
  {
  }

  /** Only the two exact names are algorithms: the misspelt "caesar" and the
      empty name that the window starts with are refused by both calls. */
  lemma UnknownAlgorithmExamples()
    ensures Encrypt("caesar", "abc", "3") == Failure(UnsupportedAlgorithm)
    ensures Decrypt("", "abc", "3") == Failure(UnsupportedAlgorithm)
  {
  }
}
