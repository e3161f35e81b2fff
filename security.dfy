/** The `Security` object: it remembers the algorithm it was built for. On
    every call it stores the lower-cased text in its own field; when the key
    is accepted it also stores the derived key shifts, and then walks the
    text with a key cursor. */
module Engine {
  import opened Cipher

  class Security {
    /** The algorithm name: "cesar" or "vigenere"; any other name makes
        every call fail with `UnsupportedAlgorithm`. */
    const algorithm: string
    /** The lower-cased text of the latest call. */
    var text: string
    /** The shifts derived from the key of the latest call whose key was
        accepted. */
    var key: seq<int>

    /** The algorithm defaults to "cesar"; the name is not checked here but
        on each call. The source creates `text` and `key` only on the first
        call; here they start empty. */
    constructor (algorithm: string := "cesar")
      ensures this.algorithm == algorithm
      ensures text == [] && key == []
    {
      this.algorithm := algorithm;
      text := [];
      key := [];
    }

    /** Lower-cases the text into `this.text` and, when the algorithm and key
        are accepted, stores the shifts in `this.key`. */
    method LoadKey(text: string, key: string) returns (r: Result<seq<int>>)
      modifies this
      ensures r == DeriveShifts(algorithm, key)
      ensures this.text == Lower(text)
      ensures this.key == if r.Success? then r.value else old(this.key)
    {
      this.text := Lower(text);
      if algorithm == "cesar" {
        r := DigitShifts(key);
      } else if algorithm == "vigenere" {
        r := KeywordShifts(key);
      } else {
        return Failure(UnsupportedAlgorithm);
      }
      if r.Success? {
        this.key := r.value;
      }
    }

    /** `encode`: load the text and key, then run the cursor loop; the result
        is `Encrypt`. */
    method Encode(text: string, key: string) returns (r: Result<string>)
      modifies this
      ensures r == Encrypt(algorithm, text, key)
      ensures this.text == Lower(text)
      ensures this.key == if DeriveShifts(algorithm, key).Success?
                          then DeriveShifts(algorithm, key).value else old(this.key)
    {
      var derived := LoadKey(text, key);
      if derived.Failure? {
        return Failure(derived.error);
      }
      r := EncodeText(this.text, this.key);
    }

    /** The loop of `encode`, run on the stored `text` and `key`: each letter
        moves forward by the shift under the key cursor, subtracting 26 once
        when it runs past 'z'. */
    static method EncodeText(t: string, shifts: seq<int>) returns (r: Result<string>)
      requires ValidShifts(shifts)
      ensures r == Transform(Direction.Encode, t, shifts)
    {
      ghost var expected := if shifts == [] then t else Transform(Direction.Encode, t, shifts).value;
      var encrypted: string := [];
      var i: nat := 0;
      for j := 0 to |t|
        invariant encrypted == expected[..j]
        invariant shifts == [] ==> i == 0 && forall m :: 0 <= m < j ==> !IsLetter(t[m])
        invariant shifts != [] ==> i == LetterCount(t[..j]) % |shifts|
      {
        var c := t[j];
        assert expected[..j + 1] == expected[..j] + [expected[j]];
        InAlphabet(c);
        if shifts != [] {
          CursorStep(t, |shifts|, j, i);
        }
        if c in Alphabet {
          if i >= |shifts| {
            // Python raises IndexError at `self.key[i]`
            return Failure(EmptyKey);
          }
          CipherAtLetter(Direction.Encode, t, shifts, j, i);
          var charIndex := Find(c);
          var newCharIndex := charIndex + shifts[i];
          if newCharIndex > |Alphabet| - 1 {
            newCharIndex := newCharIndex - |Alphabet|;
          }
          assert newCharIndex == ShiftUp(charIndex, shifts[i]);
          encrypted := encrypted + [Alphabet[newCharIndex]];
          i := i + 1;
        } else {
          assert c == expected[j];
          encrypted := encrypted + [c];
        }
        if i >= |shifts| {
          i := 0;
        }
      }
      assert encrypted == expected;
      r := Success(encrypted);
    }

    /** `decode`: the same loop with the shift subtracted, proved to compute
        `Decrypt`. */
    method Decode(text: string, key: string) returns (r: Result<string>)
      modifies this
      ensures r == Decrypt(algorithm, text, key)
      ensures this.text == Lower(text)
      ensures this.key == if DeriveShifts(algorithm, key).Success?
                          then DeriveShifts(algorithm, key).value else old(this.key)
    {
      var derived := LoadKey(text, key);
      if derived.Failure? {
        return Failure(derived.error);
      }
      r := DecodeText(this.text, this.key);
    }
    /** The loop of `decode`, run on the stored `text` and `key`: each letter
        moves back by the shift under the key cursor, adding 26 once when it
        runs before 'a'. */
    static method DecodeText(t: string, shifts: seq<int>) returns (r: Result<string>)
      requires ValidShifts(shifts)
      ensures r == Transform(Direction.Decode, t, shifts)
    {
      ghost var expected := if shifts == [] then t else Transform(Direction.Decode, t, shifts).value;
      var decrypted: string := [];
      var i: nat := 0;
      for j := 0 to |t|
        invariant decrypted == expected[..j]
        invariant shifts == [] ==> i == 0 && forall m :: 0 <= m < j ==> !IsLetter(t[m])
        invariant shifts != [] ==> i == LetterCount(t[..j]) % |shifts|
      {
        var c := t[j];
        assert expected[..j + 1] == expected[..j] + [expected[j]];
        InAlphabet(c);
        if shifts != [] {
          CursorStep(t, |shifts|, j, i);
        }
        if c in Alphabet {
          if i >= |shifts| {
            // Python raises IndexError at `self.key[i]`
            return Failure(EmptyKey);
          }
          CipherAtLetter(Direction.Decode, t, shifts, j, i);
          var charIndex := Find(c);
          var newCharIndex := charIndex - shifts[i];
          if newCharIndex < 0 {
            newCharIndex := newCharIndex + |Alphabet|;
          }
          assert newCharIndex == ShiftDown(charIndex, shifts[i]);
          decrypted := decrypted + [Alphabet[newCharIndex]];
          i := i + 1;
        } else {
          assert c == expected[j];
          decrypted := decrypted + [c];
        }
        if i >= |shifts| {
          i := 0;
        }
      }
      assert decrypted == expected;
      r := Success(decrypted);
    }
  }
}
