/** The validation hash of a certificate (`gerarHashValidador`): the
    `|`-delimited preimage it digests, and the rendering of the 32-byte
    SHA-256 digest as 64 upper-case hexadecimal characters. SHA-256 over the
    UTF-8 bytes of the preimage is not modelled; callers pass it in as a
    function from strings to digests. */
module HashValidador {
  import opened Wrappers

  /** The output of `MessageDigest.digest` for SHA-256: 32 signed bytes. */
  type Digest = d: seq<int8> | |d| == 32 witness seq(32, _ => 0 as int8)

  /** The secret suffix appended to every preimage. */
  const Chave: string := "CERTIFICADO_VALIDATOR_KEY"

  const Separador: char := '|'

  // ---------------------------------------------------------------------
  // Decimal rendering of ids (`StringBuilder.append(int)`)
  // ---------------------------------------------------------------------

  function Digito(v: nat): (c: char)
    requires v < 10
    ensures '0' <= c <= '9'
  {
    ('0' as int + v) as char
  }

  /** The decimal digits of a non-negative number, most significant first. */
  function Natural(n: nat): (r: string)
    ensures |r| >= 1
    ensures forall i :: 0 <= i < |r| ==> '0' <= r[i] <= '9'
    decreases n
  {
    if n < 10 then [Digito(n)] else Natural(n / 10) + [Digito(n % 10)]
  }

  /** `Integer.toString(n)`: a minus sign before the digits of a negative number. */
  function Decimal(n: int): (r: string)
    ensures Separador !in r
  {
    if n < 0 then "-" + Natural(-n) else Natural(n)
  }

  /** Only decimal digits. */
  predicate SoDigitos(s: string) {
    forall i :: 0 <= i < |s| ==> '0' <= s[i] <= '9'
  }

  /** Reads back a string of decimal digits. */
  function LerNatural(s: string): (r: nat)
    requires SoDigitos(s)
  {
    if s == [] then 0
    else LerNatural(s[..|s| - 1]) * 10 + (s[|s| - 1] as int - '0' as int)
  }

  /** Reads back the text of an `int`. */
  function LerDecimal(s: string): (r: Option<int>) {
    if |s| >= 1 && s[0] == '-' && SoDigitos(s[1..]) then Some(-(LerNatural(s[1..]) as int))
    else if SoDigitos(s) then Some(LerNatural(s))
    else None
  }

  lemma {:induction false} LerNaturalDeNatural(n: nat)
    ensures LerNatural(Natural(n)) == n
    decreases n
  {
    var s := Natural(n);
    if n >= 10 {
      LerNaturalDeNatural(n / 10);
      assert s[..|s| - 1] == Natural(n / 10);
    }
  }

  /** A minus sign before digits reads as the negated number. */
  lemma LerDecimalMenos(t: string)
    requires SoDigitos(t)
    ensures LerDecimal("-" + t) == Some(-(LerNatural(t) as int))
  {
    assert ("-" + t)[1..] == t;
  }

  /** A minus sign before the digits of `m` reads as `-m`. */
  lemma LerDecimalMenosNatural(m: nat)
    ensures LerDecimal("-" + Natural(m)) == Some(-(m as int))
  {
    var t := Natural(m);
    LerDecimalMenos(t);
    LerNaturalDeNatural(m);
  }

  lemma LerDecimalNegativo(n: int)
    requires n < 0
    ensures LerDecimal(Decimal(n)) == Some(n)
  {
    assert Decimal(n) == "-" + Natural(-n);
    LerDecimalMenosNatural(-n);
  }

  lemma LerDecimalNaoNegativo(n: int)
    requires n >= 0
    ensures LerDecimal(Decimal(n)) == Some(n)
  {
    var t := Natural(n);
    assert t[0] != '-';
    LerNaturalDeNatural(n);
  }

  /** The id text in a preimage determines the id. */
  lemma LerDecimalDeDecimal(n: int)
    ensures LerDecimal(Decimal(n)) == Some(n)
  {
    if n < 0 {
      LerDecimalNegativo(n);
    } else {
      LerDecimalNaoNegativo(n);
    }
  }

  // ---------------------------------------------------------------------
  // The preimage
  // ---------------------------------------------------------------------

  /** A nullable text field as the preimage holds it: null becomes "". */
  function Texto(s: Option<string>): string {
    s.GetOr("")
  }

  /** The fields joined with the separator (`append(x).append("|")` for all
      but the last). */
  function Juntar(fs: seq<string>): (r: string)
    requires |fs| >= 1
  {
    if |fs| == 1 then fs[0] else Juntar(fs[..|fs| - 1]) + [Separador] + fs[|fs| - 1]
  }

  /** Splits a string at every separator. */
  function Separar(s: string): (r: seq<string>)
    ensures |r| >= 1
  {
    if s == [] then [""]
    else
      var r := Separar(s[..|s| - 1]);
      if s[|s| - 1] == Separador then r + [""]
      else r[..|r| - 1] + [r[|r| - 1] + [s[|s| - 1]]]
  }

  /** The ten fields of the preimage, in order. */
  function Campos(
    alunoId: int, alunoNome: Option<string>, alunoCpf: Option<string>,
    eventoId: int, eventoNome: Option<string>,
    palestranteId: int, palestranteNome: Option<string>,
    identidade: Option<string>, instante: string): (r: seq<string>)
    ensures |r| == 10
    ensures r[0] == Decimal(alunoId) && r[3] == Decimal(eventoId) && r[5] == Decimal(palestranteId)
    ensures r[1] == Texto(alunoNome) && r[2] == Texto(alunoCpf) && r[4] == Texto(eventoNome)
    ensures r[6] == Texto(palestranteNome) && r[7] == Texto(identidade)
    ensures r[8] == instante && r[9] == Chave
  {
    [Decimal(alunoId), Texto(alunoNome), Texto(alunoCpf), Decimal(eventoId), Texto(eventoNome),
     Decimal(palestranteId), Texto(palestranteNome), Texto(identidade), instante, Chave]
  }

  /** The string `gerarHashValidador` digests: alunoId|nome|cpf|eventoId|
      eventoNome|palestranteId|palestranteNome|identidade|instante|key. */
  function Preimagem(
    alunoId: int, alunoNome: Option<string>, alunoCpf: Option<string>,
    eventoId: int, eventoNome: Option<string>,
    palestranteId: int, palestranteNome: Option<string>,
    identidade: Option<string>, instante: string): (r: string)
    ensures |r| >= |Chave| && r[|r| - |Chave|..] == Chave
  {
    var fs := Campos(alunoId, alunoNome, alunoCpf, eventoId, eventoNome, palestranteId, palestranteNome, identidade, instante);
    assert Juntar(fs) == Juntar(fs[..9]) + [Separador] + Chave;
    Juntar(Campos(alunoId, alunoNome, alunoCpf, eventoId, eventoNome, palestranteId, palestranteNome, identidade, instante))
  }

  /** A string without a separator splits into itself. */
  lemma {:induction false} SepararSemSeparador(f: string)
    requires Separador !in f
    ensures Separar(f) == [f]
    decreases |f|
  {
    if f != [] {
      var prefixo, ultimo := f[..|f| - 1], f[|f| - 1];
      assert f == prefixo + [ultimo];
      assert Separador !in prefixo;
      SepararSemSeparador(prefixo);
      assert ultimo != Separador;
      assert Separar(f) == [prefixo][..0] + [prefixo + [ultimo]];
    }
  }

  /** Appending a separator and a separator-free field adds one field. */
  lemma {:induction false} SepararAnexa(p: string, f: string)
    requires Separador !in f
    ensures Separar(p + [Separador] + f) == Separar(p) + [f]
    decreases |f|
  {
    var s := p + [Separador] + f;
    if f == [] {
      assert s[..|s| - 1] == p;
    } else {
      var f' := f[..|f| - 1];
      assert s[..|s| - 1] == p + [Separador] + f';
      SepararAnexa(p, f');
      assert f' + [f[|f| - 1]] == f;
    }
  }

  /** Joining separator-free fields and splitting again gives the fields back. */
  lemma {:induction false} SepararJuntar(fs: seq<string>)
    requires |fs| >= 1
    requires forall i :: 0 <= i < |fs| ==> Separador !in fs[i]
    ensures Separar(Juntar(fs)) == fs
    decreases |fs|
  {
    if |fs| == 1 {
      SepararSemSeparador(fs[0]);
    } else {
      var p := fs[..|fs| - 1];
      SepararJuntar(p);
      SepararAnexa(Juntar(p), fs[|fs| - 1]);
      assert p + [fs[|fs| - 1]] == fs;
    }
  }

  /** When no text field contains the separator, the preimage splits back
      into exactly its ten fields: the layout is unambiguous, the ids can be
      read back, and the secret key is the last field. */
  lemma PreimagemSeparavel(
    alunoId: int, alunoNome: Option<string>, alunoCpf: Option<string>,
    eventoId: int, eventoNome: Option<string>,
    palestranteId: int, palestranteNome: Option<string>,
    identidade: Option<string>, instante: string)
    requires Separador !in Texto(alunoNome) && Separador !in Texto(alunoCpf) && Separador !in Texto(eventoNome)
    requires Separador !in Texto(palestranteNome) && Separador !in Texto(identidade) && Separador !in instante
    ensures var fs := Separar(Preimagem(alunoId, alunoNome, alunoCpf, eventoId, eventoNome,
                                        palestranteId, palestranteNome, identidade, instante));
      && fs == Campos(alunoId, alunoNome, alunoCpf, eventoId, eventoNome, palestranteId, palestranteNome, identidade, instante)
      && LerDecimal(fs[0]) == Some(alunoId)
      && LerDecimal(fs[3]) == Some(eventoId)
      && LerDecimal(fs[5]) == Some(palestranteId)
      && fs[9] == Chave
  {
    var fs := Campos(alunoId, alunoNome, alunoCpf, eventoId, eventoNome, palestranteId, palestranteNome, identidade, instante);
    assert Separador !in Chave;
    SepararJuntar(fs);
    LerDecimalDeDecimal(alunoId);
    LerDecimalDeDecimal(eventoId);
    LerDecimalDeDecimal(palestranteId);
  }

  /** Joining separator-free fields loses nothing: two joins are equal
      only when the field lists are. */
  lemma JuntarInjetiva(fs: seq<string>, gs: seq<string>)
    requires |fs| >= 1 && |gs| >= 1
    requires forall i :: 0 <= i < |fs| ==> Separador !in fs[i]
    requires forall i :: 0 <= i < |gs| ==> Separador !in gs[i]
    requires Juntar(fs) == Juntar(gs)
    ensures fs == gs
  {
    SepararJuntar(fs);
    SepararJuntar(gs);
  }

  /** Two certificates whose text fields are free of the separator have
      the same preimage only when their student, event and speaker ids,
      their text fields and their clock readings all agree. */
  lemma PreimagemIdentifica(
    alunoId: int, alunoNome: Option<string>, alunoCpf: Option<string>,
    eventoId: int, eventoNome: Option<string>,
    palestranteId: int, palestranteNome: Option<string>,
    identidade: Option<string>, instante: string,
    alunoId': int, alunoNome': Option<string>, alunoCpf': Option<string>,
    eventoId': int, eventoNome': Option<string>,
    palestranteId': int, palestranteNome': Option<string>,
    identidade': Option<string>, instante': string)
    requires Separador !in Texto(alunoNome) && Separador !in Texto(alunoCpf) && Separador !in Texto(eventoNome)
    requires Separador !in Texto(palestranteNome) && Separador !in Texto(identidade) && Separador !in instante
    requires Separador !in Texto(alunoNome') && Separador !in Texto(alunoCpf') && Separador !in Texto(eventoNome')
    requires Separador !in Texto(palestranteNome') && Separador !in Texto(identidade') && Separador !in instante'
    requires Preimagem(alunoId, alunoNome, alunoCpf, eventoId, eventoNome, palestranteId, palestranteNome, identidade, instante)
          == Preimagem(alunoId', alunoNome', alunoCpf', eventoId', eventoNome', palestranteId', palestranteNome', identidade', instante')
    ensures alunoId == alunoId' && eventoId == eventoId' && palestranteId == palestranteId' && instante == instante'
    ensures Texto(alunoNome) == Texto(alunoNome') && Texto(alunoCpf) == Texto(alunoCpf')
    ensures Texto(eventoNome) == Texto(eventoNome') && Texto(palestranteNome) == Texto(palestranteNome')
    ensures Texto(identidade) == Texto(identidade')
  {
    PreimagemSeparavel(alunoId, alunoNome, alunoCpf, eventoId, eventoNome, palestranteId, palestranteNome, identidade, instante);
    PreimagemSeparavel(alunoId', alunoNome', alunoCpf', eventoId', eventoNome', palestranteId', palestranteNome', identidade', instante');
  }

  // ---------------------------------------------------------------------
  // Hexadecimal rendering
  // ---------------------------------------------------------------------

  /** `0xff & b`: the byte read as unsigned. */
  function SemSinal(b: int8): (r: nat)
    ensures r < 256
    ensures r as int - b as int == 0 || r as int - b as int == 256
  {
    if b < 0 then (b as int + 256) as nat else b as nat
  }

  /** The signed byte with this unsigned value. */
  function ComSinal(v: nat): (b: int8)
    requires v < 256
    ensures SemSinal(b) == v
    ensures forall c: int8 :: SemSinal(c) == v ==> c == b
  {
    if v < 128 then v as int8 else (v as int - 256) as int8
  }

  /** `Character.forDigit(v, 16)`: lower-case digits. */
  function DigitoMinusculo(v: nat): char
    requires v < 16
  {
    if v < 10 then ('0' as int + v) as char else ('a' as int + v - 10) as char
  }

  /** An upper-case hexadecimal digit. */
  predicate HexMaiusculo(c: char) {
    '0' <= c <= '9' || 'A' <= c <= 'F'
  }

  /** The upper-case hexadecimal digit of a nibble. */
  function DigitoMaiusculo(v: nat): (c: char)
    requires v < 16
    ensures HexMaiusculo(c)
  {
    if v < 10 then ('0' as int + v) as char else ('A' as int + v - 10) as char
  }

  /** `Integer.toHexString(v)` for a non-negative `v`: lower-case digits, no
      leading zeros. */
  function ToHexString(v: nat): (r: string)
    ensures |r| >= 1
    ensures |r| == 1 <==> v < 16
    ensures v > 0 ==> r[0] != '0'
    decreases v
  {
    if v < 16 then [DigitoMinusculo(v)] else ToHexString(v / 16) + [DigitoMinusculo(v % 16)]
  }

  /** `Character.toUpperCase` on the ASCII letters. */
  function Maiuscula(c: char): char {
    if 'a' <= c <= 'z' then (c as int - 32) as char else c
  }

  /** `String.toUpperCase` on ASCII text. */
  function ParaMaiusculas(s: string): (r: string)
    ensures |r| == |s|
    ensures forall i :: 0 <= i < |s| ==> r[i] == Maiuscula(s[i])
  {
    seq(|s|, i requires 0 <= i < |s| => Maiuscula(s[i]))
  }

  /** The rendering the hash promises: two upper-case characters per byte,
      high nibble first. */
  function Hex(d: seq<int8>): (r: string)
  {
    if d == [] then ""
    else
      var v := SemSinal(d[|d| - 1]);
      Hex(d[..|d| - 1]) + [DigitoMaiusculo(v / 16), DigitoMaiusculo(v % 16)]
  }

  /** The characters one loop iteration appends for the unsigned byte `v`
      (`if (hex.length() == 1) hashHex.append('0'); hashHex.append(hex);`). */
  function Passo(v: nat): (r: string)
    requires v < 256
    ensures r == [DigitoMinusculo(v / 16), DigitoMinusculo(v % 16)]
  {
    var hex := ToHexString(v);
    if |hex| == 1 then
      "0" + hex
    else
      assert ToHexString(v / 16) == [DigitoMinusculo(v / 16)];
      hex
  }

  /** One loop step, once upper-cased, is the two digits of the byte. */
  lemma PassoMaiusculo(v: nat)
    requires v < 256
    ensures ParaMaiusculas(Passo(v)) == [DigitoMaiusculo(v / 16), DigitoMaiusculo(v % 16)]
  {
    if v >= 16 {
      assert ToHexString(v / 16) == [DigitoMinusculo(v / 16)];
      assert Passo(v) == [DigitoMinusculo(v / 16), DigitoMinusculo(v % 16)];
    } else {
      assert Passo(v) == ['0', DigitoMinusculo(v)];
    }
  }

  /** Upper-casing distributes over concatenation. */
  lemma ParaMaiusculasConcatena(a: string, b: string)
    ensures ParaMaiusculas(a + b) == ParaMaiusculas(a) + ParaMaiusculas(b)
  {
  }

  /** Every rendered byte takes exactly two characters. */
  lemma {:induction false} HexComprimento(d: seq<int8>)
    ensures |Hex(d)| == 2 * |d|
  {
    if d != [] {
      HexComprimento(d[..|d| - 1]);
    }
  }

  /** Byte `i` is rendered at positions 2i and 2i+1, high nibble first. */
  lemma {:induction false} HexPosicoes(d: seq<int8>)
    ensures |Hex(d)| == 2 * |d|
    ensures forall i :: 0 <= i < |d| ==>
      Hex(d)[2 * i] == DigitoMaiusculo(SemSinal(d[i]) / 16) &&
      Hex(d)[2 * i + 1] == DigitoMaiusculo(SemSinal(d[i]) % 16)
  {
    if d != [] {
      var p := d[..|d| - 1];
      HexPosicoes(p);
      forall i | 0 <= i < |d|
        ensures Hex(d)[2 * i] == DigitoMaiusculo(SemSinal(d[i]) / 16)
        ensures Hex(d)[2 * i + 1] == DigitoMaiusculo(SemSinal(d[i]) % 16)
      {
        if i < |p| {
          assert d[i] == p[i];
        }
      }
    }
  }

  /** Every character of the rendering is an upper-case hexadecimal digit. */
  lemma HexAlfabeto(d: seq<int8>)
    ensures forall k :: 0 <= k < |Hex(d)| ==> HexMaiusculo(Hex(d)[k])
  {
    HexPosicoes(d);
    forall k | 0 <= k < |Hex(d)|
      ensures HexMaiusculo(Hex(d)[k])
    {
      if k % 2 == 0 {
        assert k == 2 * (k / 2);
      } else {
        assert k == 2 * (k / 2) + 1;
      }
    }
  }

  /** A digest renders to exactly 64 characters. */
  lemma HexDeDigest(d: Digest)
    ensures |Hex(d)| == 64
  {
    HexComprimento(d);
  }

  /** The value of an upper-case hexadecimal digit. */
  function ValorHex(c: char): nat {
    if '0' <= c <= '9' then (c - '0') as nat
    else if 'A' <= c <= 'F' then (c - 'A') as nat + 10
    else 0
  }

  lemma ValorDigito(v: nat)
    requires v < 16
    ensures ValorHex(DigitoMaiusculo(v)) == v
  {
  }

  /** Reads a rendering back into bytes, two characters at a time. */
  function DecodificarHex(h: string): seq<int8>
    decreases |h|
  {
    if |h| < 2 then []
    else
      var alto, baixo := ValorHex(h[|h| - 2]), ValorHex(h[|h| - 1]);
      DecodificarHex(h[..|h| - 2]) + [ComSinal((alto * 16 + baixo) % 256)]
  }

  /** The two digits of a byte read back to that byte. */
  lemma ByteDosDigitos(b: int8)
    ensures var v := SemSinal(b);
      ComSinal((ValorHex(DigitoMaiusculo(v / 16)) * 16 + ValorHex(DigitoMaiusculo(v % 16))) % 256) == b
  {
    var v := SemSinal(b);
    ValorDigito(v / 16);
    ValorDigito(v % 16);
    assert (v / 16 * 16 + v % 16) % 256 == v;
  }

  /** The rendering loses nothing: decoding it gives the digest back, so
      different digests give different hashes. */
  lemma {:induction false} DecodificarHexDeHex(d: seq<int8>)
    ensures DecodificarHex(Hex(d)) == d
  {
    if d != [] {
      var p, b := d[..|d| - 1], d[|d| - 1];
      var v := SemSinal(b);
      var h := Hex(d);
      assert h == Hex(p) + [DigitoMaiusculo(v / 16), DigitoMaiusculo(v % 16)];
      assert h[..|h| - 2] == Hex(p);
      DecodificarHexDeHex(p);
      ByteDosDigitos(b);
      assert p + [b] == d;
    }
  }

  lemma HexInjetiva(a: seq<int8>, b: seq<int8>)
    requires Hex(a) == Hex(b)
    ensures a == b
  {
    DecodificarHexDeHex(a);
    DecodificarHexDeHex(b);
  }

  /** The validation hash of a certificate, as a value: the rendering of the
      digest of the preimage. */
  function HashDe(
    alunoId: int, alunoNome: Option<string>, alunoCpf: Option<string>,
    eventoId: int, eventoNome: Option<string>,
    palestranteId: int, palestranteNome: Option<string>,
    identidade: Option<string>, instante: string,
    sha256: string -> Digest): (r: string)
    ensures |r| == 64
  {
    HexComprimento(sha256(Preimagem(alunoId, alunoNome, alunoCpf, eventoId, eventoNome,
                                    palestranteId, palestranteNome, identidade, instante)));
    Hex(sha256(Preimagem(alunoId, alunoNome, alunoCpf, eventoId, eventoNome,
                         palestranteId, palestranteNome, identidade, instante)))
  }

  /** Equal validation hashes mean equal digests: the rendering loses
      nothing, so a hash can only be forged through a digest collision. */
  lemma HashIdentificaDigest(
    alunoId: int, alunoNome: Option<string>, alunoCpf: Option<string>,
    eventoId: int, eventoNome: Option<string>,
    palestranteId: int, palestranteNome: Option<string>,
    identidade: Option<string>, instante: string,
    alunoId': int, alunoNome': Option<string>, alunoCpf': Option<string>,
    eventoId': int, eventoNome': Option<string>,
    palestranteId': int, palestranteNome': Option<string>,
    identidade': Option<string>, instante': string,
    sha256: string -> Digest)
    requires HashDe(alunoId, alunoNome, alunoCpf, eventoId, eventoNome, palestranteId, palestranteNome, identidade, instante, sha256)
          == HashDe(alunoId', alunoNome', alunoCpf', eventoId', eventoNome', palestranteId', palestranteNome', identidade', instante', sha256)
    ensures sha256(Preimagem(alunoId, alunoNome, alunoCpf, eventoId, eventoNome, palestranteId, palestranteNome, identidade, instante))
         == sha256(Preimagem(alunoId', alunoNome', alunoCpf', eventoId', eventoNome', palestranteId', palestranteNome', identidade', instante'))
  {
    HexInjetiva(sha256(Preimagem(alunoId, alunoNome, alunoCpf, eventoId, eventoNome, palestranteId, palestranteNome, identidade, instante)),
                sha256(Preimagem(alunoId', alunoNome', alunoCpf', eventoId', eventoNome', palestranteId', palestranteNome', identidade', instante')));
  }
}
