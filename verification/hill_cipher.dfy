/** The text side of the 2x2 Hill cipher: normalising the text to the
    letters A-Z, encoding them as numbers 0-25 with 'X' padding, the
    pairwise matrix product modulo 26, and the two click handlers that
    encrypt and decrypt. */
module HillCipher {
  import opened Wrappers
  import opened JsArith
  import opened HillKey

  /** The padding value appended to an odd-length message: the letter 'X'. */
  const Pad: int := 23

  predicate IsLetter(c: char)
  {
    'A' <= c <= 'Z'
  }

  predicate AllLetters(s: string)
  {
    forall i :: 0 <= i < |s| ==> IsLetter(s[i])
  }

  /** Every number is a symbol, in [0, 26). */
  predicate InRange(v: seq<int>)
  {
    forall i :: 0 <= i < |v| ==> 0 <= v[i] < M
  }

  /** `toUpperCase` on one character, for the ASCII letters. */
  function ToUpper(c: char): char
  {
    if 'a' <= c <= 'z' then (c as int - 32) as char else c
  }

  /** `text.toUpperCase().replace(/[^A-Z]/g, '')`: the letters of the
      text, upper-cased, in their original order. */
  function Normalize(text: string): (r: string)
    ensures AllLetters(r) && |r| <= |text|
  {
    if text == [] then []
    else
      var c := ToUpper(text[0]);
      (if IsLetter(c) then [c] else []) + Normalize(text[1..])
  }

  /** `c.charCodeAt(0) - 65`. */
  function Code(c: char): int
  {
    c as int - 65
  }

  /** `String.fromCharCode(65 + x)`. */
  function Letter(x: int): char
    requires 0 <= x < M
  {
    (65 + x) as char
  }

  /** The letter-to-number `map` over a normalised text. */
  function Codes(s: string): (v: seq<int>)
    requires AllLetters(s)
    ensures |v| == |s| && InRange(v)
  {
    seq(|s|, i requires 0 <= i < |s| => Code(s[i]))
  }

  /** The number-to-letter conversion that builds the output string. */
  function Chars(v: seq<int>): (s: string)
    requires InRange(v)
    ensures |s| == |v| && AllLetters(s)
  {
    seq(|v|, i requires 0 <= i < |v| => Letter(v[i]))
  }

  /** The symbols of a text: its letters as numbers, padded with 'X' to
      even length. */
  function Symbols(text: string): (v: seq<int>)
    ensures |v| % 2 == 0 && InRange(v)
  {
    var v := Codes(Normalize(text));
    if |v| % 2 != 0 then v + [Pad] else v
  }

  /** The key applied to each consecutive pair (v1, v2), modulo 26:
      (k11*v1 + k12*v2, k21*v1 + k22*v2). */
  function Apply(k: Matrix, v: seq<int>): (r: seq<int>)
    requires |v| % 2 == 0
    ensures |r| == |v| && InRange(r)
  {
    seq(|v|, i requires 0 <= i < |v| =>
      if i % 2 == 0 then Row(k.k11, k.k12, v[i], v[i + 1])
      else Row(k.k21, k.k22, v[i - 1], v[i]))
  }

  /** The two entries of one pair of `Apply`. */
  lemma ApplyPairAt(k: Matrix, v: seq<int>, i: int)
    requires |v| % 2 == 0 && 0 <= i && i + 1 < |v| && i % 2 == 0
    ensures Apply(k, v)[i] == Row(k.k11, k.k12, v[i], v[i + 1])
    ensures Apply(k, v)[i + 1] == Row(k.k21, k.k22, v[i], v[i + 1])
  {
    assert (i + 1) % 2 == 1;
  }

  /** The encrypt handler as a function of the key entries and the message. */
  function EncryptSpec(k: Matrix, message: string): Result<string, Error>
  {
    match CheckKey(k)
    case Err(e) => Err(e)
    case Ok(key) =>
      if Normalize(message) == [] then Err(EmptyInput)
      else Ok(Chars(Apply(k, Symbols(message))))
  }

  /** The decrypt handler as a function of the key entries and the ciphertext. */
  function DecryptSpec(k: Matrix, ciphertext: string): Result<string, Error>
  {
    match CheckKey(k)
    case Err(e) => Err(e)
    case Ok(key) =>
      if Normalize(ciphertext) == [] then Err(EmptyInput)
      else Ok(Chars(Apply(InverseKey(key), Symbols(ciphertext))))
  }

  /** Normalise, reject empty, map letters to numbers and push the padding
      when the count is odd. */
  method Encode(text: string) returns (r: Result<seq<int>, Error>)
    ensures r.Err? <==> Normalize(text) == []
    ensures r.Err? ==> r.error == EmptyInput
    ensures r.Ok? ==> r.value == Symbols(text)
    ensures r.Ok? ==>
              var s, n := Normalize(text), |Normalize(text)|;
              |r.value| == n + n % 2 && InRange(r.value) &&
              (forall i :: 0 <= i < n ==> r.value[i] == Code(s[i])) &&
              (n % 2 == 1 ==> r.value[n] == Pad)
  {
    var texto := Normalize(text);
    if |texto| == 0 {
      return Err(EmptyInput);
    }
    var numeros := Codes(texto);
    if |numeros| % 2 != 0 {
      numeros := numeros + [Pad];
    }
    return Ok(numeros);
  }

  /** The body of the loop in both handlers: multiply one pair by the
      matrix with JavaScript's remainder, repair the sign and convert the
      two results to letters. */
  method TransformPair(k: Matrix, v1: int, v2: int) returns (p1: char, p2: char)
    ensures p1 == Letter(Row(k.k11, k.k12, v1, v2))
    ensures p2 == Letter(Row(k.k21, k.k22, v1, v2))
  {
    var c1 := Rem(k.k11 * v1 + k.k12 * v2, M);
    var c2 := Rem(k.k21 * v1 + k.k22 * v2, M);
    RepairIsMod(k.k11 * v1 + k.k12 * v2, M);
    RepairIsMod(k.k21 * v1 + k.k22 * v2, M);
    p1 := Letter(Repair(c1, M));
    p2 := Letter(Repair(c2, M));
  }

  /** Converting one more pair of symbols appends its two letters. */
  lemma CharsNextPair(v: seq<int>, i: int)
    requires InRange(v) && 0 <= i && i + 2 <= |v|
    ensures Chars(v[..i + 2]) == Chars(v[..i]) + [Letter(v[i]), Letter(v[i + 1])]
  {
    var lhs, rhs := Chars(v[..i + 2]), Chars(v[..i]) + [Letter(v[i]), Letter(v[i + 1])];
    assert |lhs| == |rhs|;
    forall j | 0 <= j < |lhs|
      ensures lhs[j] == rhs[j]
    {
      if j < i {
        assert lhs[j] == Letter(v[j]);
      }
    }
  }

  /** The loop shared by both handlers: step through the symbols two at a
      time and append the two letters of each transformed pair. */
  method ApplyPairs(k: Matrix, v: seq<int>) returns (out: string)
    requires |v| % 2 == 0
    ensures out == Chars(Apply(k, v))
  {
    ghost var spec := Apply(k, v);
    out := "";
    var i := 0;
    while i < |v|
      invariant 0 <= i <= |v| && i % 2 == 0
      invariant out == Chars(spec[..i])
    {
      var p1, p2 := TransformPair(k, v[i], v[i + 1]);
      ApplyPairAt(k, v, i);
      CharsNextPair(spec, i);
      out := out + [p1, p2];
      i := i + 2;
    }
    assert spec[..i] == spec;
  }

  /** The encrypt click handler: validate the key, then encode the message
      and transform it pair by pair. */
  method Encrypt(k: Matrix, message: string) returns (r: Result<string, Error>)
    ensures r == EncryptSpec(k, message)
  {
    var key := ReadKey(k);
    if key.Err? {
      return Err(key.error);
    }
    var numeros := Encode(message);
    if numeros.Err? {
      return Err(numeros.error);
    }
    var encriptado := ApplyPairs(key.value.matrix, numeros.value);
    return Ok(encriptado);
  }

  /** The decrypt click handler: validate the key, build the inverse key,
      then encode the ciphertext and transform it pair by pair. */
  method Decrypt(k: Matrix, ciphertext: string) returns (r: Result<string, Error>)
    ensures r == DecryptSpec(k, ciphertext)
  {
    var key := ReadKey(k);
    if key.Err? {
      return Err(key.error);
    }
    var invKey := InverseKey(key.value);
    var numeros := Encode(ciphertext);
    if numeros.Err? {
      return Err(numeros.error);
    }
    var desencriptado := ApplyPairs(invKey, numeros.value);
    return Ok(desencriptado);
  }

  /** The letters of one pair of the product. */
  lemma PairLetters(k: Matrix, v: seq<int>, j: int)
    requires |v| % 2 == 0 && 0 <= j && j + 1 < |v| && j % 2 == 0
    ensures var out := Chars(Apply(k, v));
            out[j] == Letter(Row(k.k11, k.k12, v[j], v[j + 1])) &&
            out[j + 1] == Letter(Row(k.k21, k.k22, v[j], v[j + 1]))
  {
    ApplyPairAt(k, v, j);
  }

  /** Encryption writes one letter per padded symbol, and positions j and
      j+1 of an even j are the two rows of K times that pair, modulo 26. */
  lemma EncryptPair(k: Matrix, message: string, out: string, j: int)
    requires EncryptSpec(k, message) == Ok(out)
    requires 0 <= j && j + 1 < |Symbols(message)| && j % 2 == 0
    ensures |out| == |Symbols(message)| && AllLetters(out)
    ensures var v := Symbols(message);
            out[j] == Letter(Row(k.k11, k.k12, v[j], v[j + 1])) &&
            out[j + 1] == Letter(Row(k.k21, k.k22, v[j], v[j + 1]))
  {
    var v := Symbols(message);
    assert out == Chars(Apply(k, v));
    PairLetters(k, v, j);
  }

  /** Decryption is the same pairwise product with the inverse key. */
  lemma DecryptPair(k: Matrix, ciphertext: string, out: string, j: int)
    requires DecryptSpec(k, ciphertext) == Ok(out)
    requires 0 <= j && j + 1 < |Symbols(ciphertext)| && j % 2 == 0
    ensures |out| == |Symbols(ciphertext)| && AllLetters(out)
    ensures var v, inv := Symbols(ciphertext), InverseKey(CheckKey(k).value);
            out[j] == Letter(Row(inv.k11, inv.k12, v[j], v[j + 1])) &&
            out[j + 1] == Letter(Row(inv.k21, inv.k22, v[j], v[j + 1]))
  {
    var v, inv := Symbols(ciphertext), InverseKey(CheckKey(k).value);
    assert out == Chars(Apply(inv, v));
    PairLetters(inv, v, j);
  }

  /** One character: a lower-case ASCII letter is kept in upper case, an
      upper-case one is kept as it is, and anything else is dropped. */
  lemma NormalizeChar(c: char)
    ensures Normalize([c]) ==
            if 'a' <= c <= 'z' then [(c as int - 32) as char]
            else if 'A' <= c <= 'Z' then [c]
            else []
  {
    assert [c][1..] == [];
  }

  /** A string of letters A-Z normalises to itself. */
  lemma {:induction false} NormalizeLetters(s: string)
    requires AllLetters(s)
    ensures Normalize(s) == s
  {
    if s != [] {
      NormalizeLetters(s[1..]);
    }
  }

  /** Normalising twice is normalising once. */
  lemma NormalizeIdempotent(text: string)
    ensures Normalize(Normalize(text)) == Normalize(text)
  {
    NormalizeLetters(Normalize(text));
  }

  /** Normalisation works character by character. */
  lemma {:induction false} NormalizeAppend(a: string, b: string)
    ensures Normalize(a + b) == Normalize(a) + Normalize(b)
  {
    if a == [] {
      assert a + b == b;
    } else {
      var c := ToUpper(a[0]);
      var head: string := if IsLetter(c) then [c] else [];
      assert (a + b)[0] == a[0];
      assert (a + b)[1..] == a[1..] + b;
      NormalizeAppend(a[1..], b);
      assert Normalize(a + b) == head + (Normalize(a[1..]) + Normalize(b));
      assert Normalize(a) == head + Normalize(a[1..]);
    }
  }

  /** Letters survive the round trip through numbers. */
  lemma CharsCodes(s: string)
    requires AllLetters(s)
    ensures Chars(Codes(s)) == s
  {
  }

  /** Numbers survive the round trip through letters. */
  lemma CodesChars(v: seq<int>)
    requires InRange(v)
    ensures Codes(Chars(v)) == v
  {
  }

  /** One pair: the inverse key undoes the key, modulo 26. */
  lemma PairInverts(key: Key, x: int, y: int)
    requires Valid(key) && 0 <= x < M && 0 <= y < M
    ensures var k, inv := key.matrix, InverseKey(key);
            var p, q := Row(k.k11, k.k12, x, y), Row(k.k21, k.k22, x, y);
            Row(inv.k11, inv.k12, p, q) == x && Row(inv.k21, inv.k22, p, q) == y
  {
    var k, inv := key.matrix, InverseKey(key);
    InverseKeyInverts(key);
    RowUndoes(inv.k11, inv.k12, k, x, y, 1, 0);
    RowUndoes(inv.k21, inv.k22, k, x, y, 0, 1);
    RowIdentity(x, y);
  }

  /** Decrypting the encryption of a symbol sequence gives it back. */
  lemma ApplyInverts(key: Key, v: seq<int>)
    requires Valid(key) && |v| % 2 == 0 && InRange(v)
    ensures Apply(InverseKey(key), Apply(key.matrix, v)) == v
  {
    forall i | 0 <= i < |v|
      ensures Apply(InverseKey(key), Apply(key.matrix, v))[i] == v[i]
    {
      ApplyInvertsAt(key, v, i);
    }
  }

  /** The even position where the pair holding position `i` starts. */
  function PairStart(n: int, i: int): (j: int)
    requires n % 2 == 0 && 0 <= i < n
    ensures j % 2 == 0 && 0 <= j && j + 1 < n && (j == i || j + 1 == i)
  {
    if i % 2 == 0 then i else i - 1
  }

  /** Each position comes back, as part of its pair. */
  lemma ApplyInvertsAt(key: Key, v: seq<int>, i: int)
    requires Valid(key) && |v| % 2 == 0 && InRange(v) && 0 <= i < |v|
    ensures Apply(InverseKey(key), Apply(key.matrix, v))[i] == v[i]
  {
    var j := PairStart(|v|, i);
    var c := Apply(key.matrix, v);
    ApplyPairAt(key.matrix, v, j);
    ApplyPairAt(InverseKey(key), c, j);
    PairInverts(key, v[j], v[j + 1]);
  }

  /** Decoding the symbols of a text gives its letters, with an 'X' added
      when their count is odd. */
  lemma CharsSymbols(text: string)
    ensures Chars(Symbols(text)) ==
            Normalize(text) + (if |Normalize(text)| % 2 == 1 then "X" else "")
  {
    var s := Normalize(text);
    CharsCodes(s);
    if |s| % 2 == 1 {
      assert Chars(Codes(s) + [Pad]) == Chars(Codes(s)) + [Letter(Pad)];
    }
  }

  /** For an accepted key, decrypting an encryption returns the normalised
      message, followed by 'X' when its length is odd. */
  lemma RoundTrip(k: Matrix, message: string)
    requires CheckKey(k).Ok? && Normalize(message) != []
    ensures EncryptSpec(k, message).Ok?
    ensures DecryptSpec(k, EncryptSpec(k, message).value) ==
            Ok(Normalize(message) + (if |Normalize(message)| % 2 == 1 then "X" else ""))
  {
    var key := CheckKey(k).value;
    CheckKeyOutcome(k);
    var s := Symbols(message);
    var c := Apply(k, s);
    var ct := Chars(c);
    assert EncryptSpec(k, message) == Ok(ct);
    NormalizeLetters(ct);
    CodesChars(c);
    assert Symbols(ct) == c;
    ApplyInverts(key, s);
    CharsSymbols(message);
  }

  /** An even-length message of letters A-Z comes back unchanged. */
  lemma RoundTripEven(k: Matrix, message: string)
    requires CheckKey(k).Ok? && message != [] && AllLetters(message) && |message| % 2 == 0
    ensures DecryptSpec(k, EncryptSpec(k, message).value) == Ok(message)
  {
    NormalizeLetters(message);
    RoundTrip(k, message);
    assert message + "" == message;
  }

  /** The key [[3, 3], [2, 5]] is accepted with determinant 9 and inverse 3. */
  lemma ExampleKey()
    ensures CheckKey(Matrix(3, 3, 2, 5)) == Ok(Key(Matrix(3, 3, 2, 5), 9, 3))
  {
    assert Det(Matrix(3, 3, 2, 5)) % M == 9;
    assert !IsInverse(9, 1, M) && !IsInverse(9, 2, M) && IsInverse(9, 3, M);
    assert LeastInverse(9, M, 1) == LeastInverse(9, M, 3) == Some(3);
  }

  /** "HELP" is the symbol sequence [7, 4, 11, 15]. */
  lemma ExampleSymbols()
    ensures Normalize("HELP") == "HELP"
    ensures Symbols("HELP") == [7, 4, 11, 15]
  {
    NormalizeLetters("HELP");
    assert Codes("HELP") == [7, 4, 11, 15];
  }

  /** The key [[3, 3], [2, 5]] sends [7, 4, 11, 15] to [7, 8, 0, 19]. */
  lemma ExampleProduct()
    ensures Apply(Matrix(3, 3, 2, 5), [7, 4, 11, 15]) == [7, 8, 0, 19]
  {
    var k, v := Matrix(3, 3, 2, 5), [7, 4, 11, 15];
    ApplyPairAt(k, v, 0);
    ApplyPairAt(k, v, 2);
    var r := Apply(k, v);
    assert r[0] == 7 && r[1] == 8 && r[2] == 0 && r[3] == 19;
  }

  /** With that key "HELP" encrypts to "HIAT", which decrypts back. */
  lemma ExampleHelp()
    ensures EncryptSpec(Matrix(3, 3, 2, 5), "HELP") == Ok("HIAT")
    ensures DecryptSpec(Matrix(3, 3, 2, 5), "HIAT") == Ok("HELP")
  {
    var k := Matrix(3, 3, 2, 5);
    ExampleKey();
    ExampleSymbols();
    ExampleProduct();
    assert Chars([7, 8, 0, 19]) == "HIAT";
    RoundTripEven(k, "HELP");
  }

  /** A message without letters is rejected after the key is accepted. */
  lemma ExampleEmptyInput()
    ensures EncryptSpec(Matrix(3, 3, 2, 5), "") == Err(EmptyInput)
    ensures EncryptSpec(Matrix(3, 3, 2, 5), "1234!!") == Err(EmptyInput)
  {
    ExampleKey();
    assert Normalize("1234!!") == [];
  }

  /** The all-zero key is rejected before the message is looked at. */
  lemma ExampleZeroKey()
    ensures EncryptSpec(Matrix(0, 0, 0, 0), "") == Err(AllZeroKey)
    ensures DecryptSpec(Matrix(0, 0, 0, 0), "HIAT") == Err(AllZeroKey)
  {
  }
}
