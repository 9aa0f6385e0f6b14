/** The certificate engine (CertificadoService): issuing one certificate
    from explicit ids, deleting and looking certificates up, computing the
    validation hash, and issuing certificates in bulk to every present
    attendee of an event that does not hold one yet. */
module Certificados {
  import opened Wrappers
  import opened Eventos
  import opened Catalogo
  import opened HashValidador

  const AlunoIdNulo := Falha(BadRequest, "ID do aluno não pode ser nulo")
  const EventoIdNulo := Falha(BadRequest, "ID do evento não pode ser nulo")
  const PalestranteIdNulo := Falha(BadRequest, "ID do palestrante não pode ser nulo")
  const IdNulo := Falha(BadRequest, "ID não pode ser nulo")
  const AlunoNaoEncontrado := Falha(NotFound, "Aluno não encontrado")
  const EventoNaoEncontrado := Falha(NotFound, "Evento não encontrado")
  const PalestranteNaoEncontrado := Falha(NotFound, "Palestrante não encontrado")
  const CertificadoNaoEncontrado := Falha(NotFound, "Certificado não encontrado")
  const SemPresentes := Falha(BadRequest, "Não há alunos com presença confirmada para este evento")
  /** A single-result query that matched several rows fails inside the
      persistence layer and surfaces as a server error. */
  const ResultadoNaoUnico := Falha(InternalError, "query did not return a unique result")

  /** Whether the student already holds a certificate for the event. */
  predicate PossuiCertificado(c: seq<Certificado>, alunoId: int, eventoId: int) {
    exists x :: x in c && x.alunoId == alunoId && x.eventoId == eventoId
  }

  /** The `findByAlunoId(..).anyMatch(same event)` check decides exactly
      `PossuiCertificado`. */
  lemma AlgumDoEvento(c: seq<Certificado>, alunoId: int, eventoId: int)
    ensures (exists x :: x in CertificadosDoAluno(c, alunoId) && x.eventoId == eventoId) <==>
      PossuiCertificado(c, alunoId, eventoId)
  {
    if PossuiCertificado(c, alunoId, eventoId) {
      var x :| x in c && x.alunoId == alunoId && x.eventoId == eventoId;
      assert x in CertificadosDoAluno(c, alunoId);
    }
  }

  /** The fixed inputs of one bulk issuance: the event and speaker looked
      up, the institution data, the stored students, the first identity
      value the certificate table will hand out, the clock (its n-th
      reading, one per hash computed) and the digest function. */
  datatype Emissao = Emissao(
    eventoId: int,
    eventoNome: Option<string>,
    palestrante: Palestrante,
    nomeInstituicao: Option<string>,
    identidadeInstituicao: Option<string>,
    alunos: map<int, Aluno>,
    primeiroId: int,
    relogio: nat -> string,
    sha256: string -> Digest)

  /** Every enrollment refers to a stored student. */
  predicate Matriculados(presentes: seq<Inscricao>, alunos: map<int, Aluno>) {
    forall i :: 0 <= i < |presentes| ==> presentes[i].alunoId in alunos
  }

  /** The certificate built for an attendee when `n` certificates of this
      issuance were saved before it. */
  function CertificadoPara(p: Inscricao, em: Emissao, n: nat): (r: Certificado)
    requires p.alunoId in em.alunos
  {
    var aluno := em.alunos[p.alunoId];
    Certificado(
      em.primeiroId + n, p.alunoId, em.eventoId, em.palestrante.id,
      Some(HashDe(aluno.id, aluno.nome, aluno.cpf, em.eventoId, em.eventoNome,
                  em.palestrante.id, em.palestrante.nome, em.identidadeInstituicao,
                  em.relogio(n), em.sha256)),
      em.nomeInstituicao, em.identidadeInstituicao)
  }

  /** The certificates a bulk issuance saves, in order, when the table
      held `certs` before it: each attendee in turn, skipped when the table
      as it stands then (including the ones saved earlier in this
      issuance) already certifies them for the event. */
  function Novos(certs: seq<Certificado>, presentes: seq<Inscricao>, em: Emissao): (r: seq<Certificado>)
    requires Matriculados(presentes, em.alunos)
    ensures |r| <= |presentes|
    decreases |presentes|
  {
    if presentes == [] then []
    else
      var anteriores := Novos(certs, presentes[..|presentes| - 1], em);
      var p := presentes[|presentes| - 1];
      if PossuiCertificado(certs + anteriores, p.alunoId, em.eventoId) then anteriores
      else anteriores + [CertificadoPara(p, em, |anteriores|)]
  }

  /** One more attendee: either skipped or given the next certificate. */
  lemma NovosPasso(certs: seq<Certificado>, presentes: seq<Inscricao>, p: Inscricao, em: Emissao)
    requires Matriculados(presentes + [p], em.alunos)
    ensures Matriculados(presentes, em.alunos) && p.alunoId in em.alunos
    ensures var anteriores := Novos(certs, presentes, em);
      PossuiCertificado(certs + anteriores, p.alunoId, em.eventoId) ==>
        Novos(certs, presentes + [p], em) == anteriores
    ensures var anteriores := Novos(certs, presentes, em);
      !PossuiCertificado(certs + anteriores, p.alunoId, em.eventoId) ==>
        Novos(certs, presentes + [p], em) == anteriores + [CertificadoPara(p, em, |anteriores|)]
  {
    assert (presentes + [p])[..|presentes|] == presentes;
    assert (presentes + [p])[|presentes|] == p;
  }

  /** Every new certificate is for this event and speaker, carries the
      institution data and a 64-character hash, takes the next identity
      value in turn, and goes to a present attendee. */
  lemma {:induction false} NovosCampos(certs: seq<Certificado>, presentes: seq<Inscricao>, em: Emissao)
    requires Matriculados(presentes, em.alunos)
    ensures var r := Novos(certs, presentes, em);
      forall i :: 0 <= i < |r| ==>
        && r[i].id == em.primeiroId + i
        && r[i].eventoId == em.eventoId
        && r[i].palestranteId == em.palestrante.id
        && r[i].nomeInstituicao == em.nomeInstituicao
        && r[i].identidadeInstituicao == em.identidadeInstituicao
        && r[i].hashCertificado.Some? && |r[i].hashCertificado.value| == 64
    ensures forall x :: x in Novos(certs, presentes, em) ==> exists p :: p in presentes && p.alunoId == x.alunoId
    decreases |presentes|
  {
    if presentes != [] {
      var ps, u := presentes[..|presentes| - 1], presentes[|presentes| - 1];
      assert presentes == ps + [u];
      NovosPasso(certs, ps, u, em);
      NovosCampos(certs, ps, em);
      forall x | x in Novos(certs, ps, em)
        ensures exists p :: p in presentes && p.alunoId == x.alunoId
      {
        var p :| p in ps && p.alunoId == x.alunoId;
        assert p in presentes;
      }
    }
  }

  /** Only attendees without a certificate for the event receive one, and
      none receives two. */
  lemma {:induction false} NovosSemDuplicar(certs: seq<Certificado>, presentes: seq<Inscricao>, em: Emissao)
    requires Matriculados(presentes, em.alunos)
    ensures forall x :: x in Novos(certs, presentes, em) ==> !PossuiCertificado(certs, x.alunoId, em.eventoId)
    ensures var r := Novos(certs, presentes, em);
      forall i, j :: 0 <= i < j < |r| ==> r[i].alunoId != r[j].alunoId
    decreases |presentes|
  {
    if presentes != [] {
      var ps, u := presentes[..|presentes| - 1], presentes[|presentes| - 1];
      assert presentes == ps + [u];
      NovosPasso(certs, ps, u, em);
      NovosSemDuplicar(certs, ps, em);
      var anteriores := Novos(certs, ps, em);
      if !PossuiCertificado(certs + anteriores, u.alunoId, em.eventoId) {
        NovosCampos(certs, ps, em);
        var x := CertificadoPara(u, em, |anteriores|);
        forall i | 0 <= i < |anteriores|
          ensures anteriores[i].alunoId != x.alunoId
        {
          assert anteriores[i] in certs + anteriores;
        }
        forall y | y in certs
          ensures !(y.alunoId == x.alunoId && y.eventoId == em.eventoId)
        {
          assert y in certs + anteriores;
        }
      }
    }
  }

  /** After a bulk issuance every present attendee holds a certificate for
      the event. */
  lemma {:induction false} NovosCobrem(certs: seq<Certificado>, presentes: seq<Inscricao>, em: Emissao)
    requires Matriculados(presentes, em.alunos)
    ensures forall p :: p in presentes ==>
      PossuiCertificado(certs + Novos(certs, presentes, em), p.alunoId, em.eventoId)
    decreases |presentes|
  {
    if presentes != [] {
      var ps, u := presentes[..|presentes| - 1], presentes[|presentes| - 1];
      assert presentes == ps + [u];
      NovosPasso(certs, ps, u, em);
      NovosCobrem(certs, ps, em);
      var anteriores := Novos(certs, ps, em);
      var r := Novos(certs, presentes, em);
      assert forall y :: y in certs + anteriores ==> y in certs + r;
      if !PossuiCertificado(certs + anteriores, u.alunoId, em.eventoId) {
        assert (certs + r)[|certs + r| - 1] in certs + r;
      }
      forall p | p in presentes
        ensures PossuiCertificado(certs + r, p.alunoId, em.eventoId)
      {
        if p != u {
          assert p in ps;
        }
      }
    }
  }

  /** When every attendee is already certified for the event, a bulk
      issuance saves nothing. */
  lemma {:induction false} NovosVazio(certs: seq<Certificado>, presentes: seq<Inscricao>, em: Emissao)
    requires Matriculados(presentes, em.alunos)
    requires forall p :: p in presentes ==> PossuiCertificado(certs, p.alunoId, em.eventoId)
    ensures Novos(certs, presentes, em) == []
    decreases |presentes|
  {
    if presentes != [] {
      var ps, u := presentes[..|presentes| - 1], presentes[|presentes| - 1];
      assert presentes == ps + [u];
      NovosPasso(certs, ps, u, em);
      assert u in presentes;
      assert certs + [] == certs;
      forall q | q in ps
        ensures PossuiCertificado(certs, q.alunoId, em.eventoId)
      {
        assert q in presentes;
      }
      NovosVazio(certs, ps, em);
    }
  }

  /** Issuing twice for the same event saves nothing the second time,
      whatever the speaker, institution data, clock or first id of the
      second run. */
  lemma NovosIdempotente(certs: seq<Certificado>, presentes: seq<Inscricao>, em: Emissao, em2: Emissao)
    requires Matriculados(presentes, em.alunos) && Matriculados(presentes, em2.alunos)
    requires em2.eventoId == em.eventoId
    ensures Novos(certs + Novos(certs, presentes, em), presentes, em2) == []
  {
    NovosCobrem(certs, presentes, em);
    NovosVazio(certs + Novos(certs, presentes, em), presentes, em2);
  }

  /** A student receives a certificate in a bulk issuance exactly when they
      attended and held no certificate for the event before. */
  lemma NovosSse(certs: seq<Certificado>, presentes: seq<Inscricao>, em: Emissao, alunoId: int)
    requires Matriculados(presentes, em.alunos)
    ensures (exists x :: x in Novos(certs, presentes, em) && x.alunoId == alunoId) <==>
      (exists p :: p in presentes && p.alunoId == alunoId) && !PossuiCertificado(certs, alunoId, em.eventoId)
  {
    var r := Novos(certs, presentes, em);
    NovosSemDuplicar(certs, presentes, em);
    NovosCobrem(certs, presentes, em);
    if (exists p :: p in presentes && p.alunoId == alunoId) && !PossuiCertificado(certs, alunoId, em.eventoId) {
      var p :| p in presentes && p.alunoId == alunoId;
      var y :| y in certs + r && y.alunoId == alunoId && y.eventoId == em.eventoId;
      assert y in r;
    }
  }

  class CertificadoService {
    const catalogo: Catalogo

    constructor (catalogo: Catalogo)
      ensures this.catalogo == catalogo
    {
      this.catalogo := catalogo;
    }

    /** `buscarPorHash`: the one certificate carrying the hash; NotFound
        when none does, a server error when several do (the hash column is
        not unique). */
    function BuscarPorHash(hash: Option<string>): (r: Result<Certificado>)
      reads catalogo`certificados
      ensures r.Ok? ==> r.value in catalogo.certificados && r.value.hashCertificado == hash
      ensures r.Ok? ==> forall x :: x in catalogo.certificados && x.hashCertificado == hash ==> x == r.value
      ensures r == Err(CertificadoNaoEncontrado) <==>
        forall x :: x in catalogo.certificados ==> x.hashCertificado != hash
      ensures r.Err? ==> r == Err(CertificadoNaoEncontrado) || r == Err(ResultadoNaoUnico)
    {
      var achados := CertificadosComHash(catalogo.certificados, hash);
      if |achados| == 0 then Err(CertificadoNaoEncontrado)
      else if |achados| == 1 then
        assert achados[0] in achados;
        Ok(achados[0])
      else
        assert achados[0] in achados;
        Err(ResultadoNaoUnico)
    }

    /** `emitir`: null ids are rejected first (student, event, speaker),
        then missing records in the same order; otherwise one certificate
        is saved for that student, event and speaker with the payload's
        hash and institution data copied as they are. Nothing prevents a
        second certificate for the same student and event. */
    method Emitir(alunoId: Option<int>, eventoId: Option<int>, palestranteId: Option<int>, payload: Certificado)
      returns (r: Result<Certificado>)
      requires catalogo.Valid()
      modifies catalogo`certificados, catalogo`proximoCertificado
      ensures catalogo.Valid()
      ensures alunoId.None? ==> r == Err(AlunoIdNulo)
      ensures alunoId.Some? && eventoId.None? ==> r == Err(EventoIdNulo)
      ensures alunoId.Some? && eventoId.Some? && palestranteId.None? ==> r == Err(PalestranteIdNulo)
      ensures alunoId.Some? && eventoId.Some? && palestranteId.Some? ==>
        if alunoId.value !in catalogo.alunos then r == Err(AlunoNaoEncontrado)
        else if eventoId.value !in catalogo.eventos then r == Err(EventoNaoEncontrado)
        else if palestranteId.value !in catalogo.palestrantes then r == Err(PalestranteNaoEncontrado)
        else r.Ok?
      ensures r.Err? ==> (catalogo.certificados == old(catalogo.certificados)
                          && catalogo.proximoCertificado == old(catalogo.proximoCertificado))
      ensures r.Ok? ==>
        && r.value == Certificado(old(catalogo.proximoCertificado), alunoId.value, eventoId.value, palestranteId.value,
                                  payload.hashCertificado, payload.nomeInstituicao, payload.identidadeInstituicao)
        && catalogo.certificados == old(catalogo.certificados) + [r.value]
        && catalogo.proximoCertificado == old(catalogo.proximoCertificado) + 1
    {
      if alunoId.None? { return Err(AlunoIdNulo); }
      if eventoId.None? { return Err(EventoIdNulo); }
      if palestranteId.None? { return Err(PalestranteIdNulo); }
      if alunoId.value !in catalogo.alunos { return Err(AlunoNaoEncontrado); }
      var aluno := catalogo.alunos[alunoId.value];
      if eventoId.value !in catalogo.eventos { return Err(EventoNaoEncontrado); }
      var evento := catalogo.eventos[eventoId.value];
      if palestranteId.value !in catalogo.palestrantes { return Err(PalestranteNaoEncontrado); }
      var palestrante := catalogo.palestrantes[palestranteId.value];
      var certificado := Certificado(catalogo.proximoCertificado, aluno.id, evento.id, palestrante.id,
                                     payload.hashCertificado, payload.nomeInstituicao, payload.identidadeInstituicao);
      Salvar(certificado);
      r := Ok(certificado);
    }

    /** `save` of a new certificate: it receives the next identity value. */
    method Salvar(certificado: Certificado)
      requires catalogo.CertificadosConsistentes() && certificado.id == catalogo.proximoCertificado
      modifies catalogo`certificados, catalogo`proximoCertificado
      ensures catalogo.CertificadosConsistentes()
      ensures catalogo.certificados == old(catalogo.certificados) + [certificado]
      ensures catalogo.proximoCertificado == old(catalogo.proximoCertificado) + 1
    {
      AnexarCertificado(catalogo.certificados, certificado, catalogo.proximoCertificado);
      catalogo.certificados := catalogo.certificados + [certificado];
      catalogo.proximoCertificado := catalogo.proximoCertificado + 1;
    }

    /** `remover`: a null id is rejected; otherwise the certificate with
        that id is deleted, which removes exactly one row when it exists and
        nothing when it does not. */
    method Remover(id: Option<int>) returns (r: Result<()>)
      requires catalogo.Valid()
      modifies catalogo`certificados
      ensures catalogo.Valid()
      ensures id.None? ==> r == Err(IdNulo) && catalogo.certificados == old(catalogo.certificados)
      ensures id.Some? ==> r == Ok(()) && catalogo.certificados == SemCertificado(old(catalogo.certificados), id.value)
      ensures id.Some? && (exists x :: x in old(catalogo.certificados) && x.id == id.value) ==>
        |catalogo.certificados| == |old(catalogo.certificados)| - 1
      ensures id.Some? && (forall x :: x in old(catalogo.certificados) ==> x.id != id.value) ==>
        catalogo.certificados == old(catalogo.certificados)
    {
      if id.None? { return Err(IdNulo); }
      SemCertificadoBemFormada(catalogo.certificados, id.value, catalogo.proximoCertificado);
      SemCertificadoConta(catalogo.certificados, id.value, catalogo.proximoCertificado);
      SemCertificadoIgual(catalogo.certificados, id.value);
      catalogo.certificados := SemCertificado(catalogo.certificados, id.value);
      r := Ok(());
    }

    /** `gerarHashValidador`: the preimage of the student's, event's and
        speaker's fields, the institution identity and the clock reading is
        digested, each byte rendered as two hexadecimal digits, and the
        result upper-cased: 64 characters from [0-9A-F], the rendering of
        the digest of `Preimagem`. */
    method GerarHashValidador(aluno: Aluno, evento: Evento, palestrante: Palestrante,
                              identidadeInstituicao: Option<string>, instante: string,
                              sha256: string -> Digest) returns (hash: string)
      ensures hash == HashDe(aluno.id, aluno.nome, aluno.cpf, evento.id, evento.nome,
                             palestrante.id, palestrante.nome, identidadeInstituicao, instante, sha256)
      ensures |hash| == 64 && forall k :: 0 <= k < |hash| ==> HexMaiusculo(hash[k])
    {
      var dados := Preimagem(aluno.id, aluno.nome, aluno.cpf, evento.id, evento.nome,
                             palestrante.id, palestrante.nome, identidadeInstituicao, instante);
      var hashBytes := sha256(dados);
      var hashHex := "";
      for i := 0 to |hashBytes|
        invariant ParaMaiusculas(hashHex) == Hex(hashBytes[..i])
      {
        var v := SemSinal(hashBytes[i]);
        var hex := ToHexString(v);
        ghost var antes := hashHex;
        if |hex| == 1 {
          hashHex := hashHex + "0";
        }
        hashHex := hashHex + hex;
        assert hashHex == antes + Passo(v);
        ParaMaiusculasConcatena(antes, Passo(v));
        PassoMaiusculo(v);
        assert hashBytes[..i + 1][..i] == hashBytes[..i];
      }
      assert hashBytes[..|hashBytes|] == hashBytes;
      hash := ParaMaiusculas(hashHex);
      HexAlfabeto(hashBytes);
    }

    /** The overload taking a certificate: the hash of its own student,
        event, speaker and institution identity. */
    method GerarHashValidadorDoCertificado(certificado: Certificado, instante: string, sha256: string -> Digest)
      returns (hash: string)
      requires certificado.alunoId in catalogo.alunos
      requires certificado.eventoId in catalogo.eventos
      requires certificado.palestranteId in catalogo.palestrantes
      ensures var aluno, evento, palestrante := catalogo.alunos[certificado.alunoId],
                                                 catalogo.eventos[certificado.eventoId],
                                                 catalogo.palestrantes[certificado.palestranteId];
        hash == HashDe(aluno.id, aluno.nome, aluno.cpf, evento.id, evento.nome,
                       palestrante.id, palestrante.nome, certificado.identidadeInstituicao, instante, sha256)
    {
      hash := GerarHashValidador(catalogo.alunos[certificado.alunoId], catalogo.eventos[certificado.eventoId],
                                 catalogo.palestrantes[certificado.palestranteId],
                                 certificado.identidadeInstituicao, instante, sha256);
    }

    /** The inputs of a bulk issuance for this event and speaker as the
        store holds them now. */
    ghost function EmissaoPara(eventoId: int, palestranteId: int, nomeInstituicao: Option<string>,
                               identidadeInstituicao: Option<string>, relogio: nat -> string,
                               sha256: string -> Digest): Emissao
      reads catalogo, catalogo.eventos.Values`nome
      requires eventoId in catalogo.eventos && palestranteId in catalogo.palestrantes
    {
      Emissao(eventoId, catalogo.eventos[eventoId].nome, catalogo.palestrantes[palestranteId],
              nomeInstituicao, identidadeInstituicao, catalogo.alunos, catalogo.proximoCertificado,
              relogio, sha256)
    }

    /** `gerarCertificadosParaEvento`: null ids, then a missing event or
        speaker, then an event without present attendees are rejected and
        nothing is saved; otherwise the present attendees are processed in
        order, those already certified for the event are skipped, and the
        certificates saved are returned, which are exactly `Novos`. */
    method GerarCertificadosParaEvento(eventoId: Option<int>, palestranteId: Option<int>,
                                       nomeInstituicao: Option<string>, identidadeInstituicao: Option<string>,
                                       relogio: nat -> string, sha256: string -> Digest)
      returns (r: Result<seq<Certificado>>)
      requires catalogo.Valid()
      modifies catalogo`certificados, catalogo`proximoCertificado
      ensures catalogo.Valid()
      ensures eventoId.None? ==> r == Err(EventoIdNulo)
      ensures eventoId.Some? && palestranteId.None? ==> r == Err(PalestranteIdNulo)
      ensures eventoId.Some? && palestranteId.Some? ==>
        if eventoId.value !in catalogo.eventos then r == Err(EventoNaoEncontrado)
        else if palestranteId.value !in catalogo.palestrantes then r == Err(PalestranteNaoEncontrado)
        else if Presentes(catalogo.inscricoes, eventoId.value) == [] then r == Err(SemPresentes)
        else r.Ok?
      ensures r.Err? ==> (catalogo.certificados == old(catalogo.certificados)
                          && catalogo.proximoCertificado == old(catalogo.proximoCertificado))
      ensures r.Ok? ==> Matriculados(Presentes(catalogo.inscricoes, eventoId.value), catalogo.alunos)
      ensures r.Ok? ==>
        && r.value == Novos(old(catalogo.certificados), Presentes(catalogo.inscricoes, eventoId.value),
                            old(EmissaoPara(eventoId.value, palestranteId.value, nomeInstituicao,
                                            identidadeInstituicao, relogio, sha256)))
        && catalogo.certificados == old(catalogo.certificados) + r.value
        && catalogo.proximoCertificado == old(catalogo.proximoCertificado) + |r.value|
    {
      if eventoId.None? { return Err(EventoIdNulo); }
      if palestranteId.None? { return Err(PalestranteIdNulo); }
      var e := eventoId.value;
      if e !in catalogo.eventos { return Err(EventoNaoEncontrado); }
      var evento := catalogo.eventos[e];
      if palestranteId.value !in catalogo.palestrantes { return Err(PalestranteNaoEncontrado); }
      var palestrante := catalogo.palestrantes[palestranteId.value];
      var presentes := Presentes(catalogo.inscricoes, e);
      if presentes == [] { return Err(SemPresentes); }

      BemFormadaFatos(catalogo.inscricoes, catalogo.proximaInscricao, catalogo.alunos.Keys, catalogo.eventos.Keys);
      assert Matriculados(presentes, catalogo.alunos) by {
        forall i | 0 <= i < |presentes|
          ensures presentes[i].alunoId in catalogo.alunos
        {
          assert presentes[i] in catalogo.inscricoes;
        }
      }
      ghost var em := EmissaoPara(e, palestranteId.value, nomeInstituicao, identidadeInstituicao, relogio, sha256);
      var gerados := EmitirParaPresentes(presentes, evento, palestrante, nomeInstituicao, identidadeInstituicao,
                                         relogio, sha256, em);
      r := Ok(gerados);
    }

    /** The stream over the present attendees: for each in turn, look up the
        student's certificates, skip them when one is for this event,
        otherwise compute the hash and save a new certificate. */
    method EmitirParaPresentes(presentes: seq<Inscricao>, evento: Evento, palestrante: Palestrante,
                               nomeInstituicao: Option<string>, identidadeInstituicao: Option<string>,
                               relogio: nat -> string, sha256: string -> Digest, ghost em: Emissao)
      returns (gerados: seq<Certificado>)
      requires catalogo.CertificadosConsistentes() && Matriculados(presentes, catalogo.alunos)
      requires em.eventoId == evento.id && em.eventoNome == evento.nome && em.palestrante == palestrante
      requires em.nomeInstituicao == nomeInstituicao && em.identidadeInstituicao == identidadeInstituicao
      requires em.alunos == catalogo.alunos && em.primeiroId == catalogo.proximoCertificado
      requires em.relogio == relogio && em.sha256 == sha256
      modifies catalogo`certificados, catalogo`proximoCertificado
      ensures catalogo.CertificadosConsistentes()
      ensures gerados == Novos(old(catalogo.certificados), presentes, em)
      ensures catalogo.certificados == old(catalogo.certificados) + gerados
      ensures catalogo.proximoCertificado == old(catalogo.proximoCertificado) + |gerados|
    {
      ghost var antes := catalogo.certificados;
      gerados := [];
      for i := 0 to |presentes|
        invariant gerados == Novos(antes, presentes[..i], em)
        invariant catalogo.certificados == antes + gerados
        invariant catalogo.proximoCertificado == em.primeiroId + |gerados|
        invariant catalogo.CertificadosConsistentes()
      {
        assert presentes[..i + 1] == presentes[..i] + [presentes[i]];
        gerados := EmitirPara(presentes[i], evento, palestrante, nomeInstituicao, identidadeInstituicao,
                              relogio, sha256, em, antes, presentes[..i], gerados);
      }
      assert presentes[..|presentes|] == presentes;
    }

    /** One step of the stream: the attendee is skipped when the table
        already certifies them for the event, otherwise their certificate
        is hashed and saved; either way the certificates saved so far are
        `Novos` of the attendees seen so far. */
    method EmitirPara(inscricao: Inscricao, evento: Evento, palestrante: Palestrante,
                      nomeInstituicao: Option<string>, identidadeInstituicao: Option<string>,
                      relogio: nat -> string, sha256: string -> Digest, ghost em: Emissao,
                      ghost antes: seq<Certificado>, ghost vistos: seq<Inscricao>, gerados: seq<Certificado>)
      returns (gerados': seq<Certificado>)
      requires catalogo.CertificadosConsistentes()
      requires Matriculados(vistos, em.alunos) && Matriculados(vistos + [inscricao], em.alunos)
      requires em.eventoId == evento.id && em.eventoNome == evento.nome && em.palestrante == palestrante
      requires em.nomeInstituicao == nomeInstituicao && em.identidadeInstituicao == identidadeInstituicao
      requires em.alunos == catalogo.alunos && em.relogio == relogio && em.sha256 == sha256
      requires gerados == Novos(antes, vistos, em)
      requires catalogo.certificados == antes + gerados
      requires catalogo.proximoCertificado == em.primeiroId + |gerados|
      modifies catalogo`certificados, catalogo`proximoCertificado
      ensures catalogo.CertificadosConsistentes()
      ensures gerados' == Novos(antes, vistos + [inscricao], em)
      ensures catalogo.certificados == antes + gerados'
      ensures catalogo.proximoCertificado == em.primeiroId + |gerados'|
    {
      NovosPasso(antes, vistos, inscricao, em);
      var doAluno := CertificadosDoAluno(catalogo.certificados, inscricao.alunoId);
      var jaExisteCertificado := exists x :: x in doAluno && x.eventoId == evento.id;
      AlgumDoEvento(catalogo.certificados, inscricao.alunoId, em.eventoId);
      if jaExisteCertificado {
        return gerados;
      }
      var certificado := NovoCertificado(inscricao, evento, palestrante, nomeInstituicao, identidadeInstituicao,
                                         relogio, sha256, em, |gerados|);
      Salvar(certificado);
      gerados' := gerados + [certificado];
    }

    /** A new certificate for the attendee, hashed with the clock's n-th
        reading, under the identity value the table hands out next. */
    method NovoCertificado(inscricao: Inscricao, evento: Evento, palestrante: Palestrante,
                           nomeInstituicao: Option<string>, identidadeInstituicao: Option<string>,
                           relogio: nat -> string, sha256: string -> Digest, ghost em: Emissao, n: nat)
      returns (certificado: Certificado)
      requires inscricao.alunoId in catalogo.alunos
      requires em.eventoId == evento.id && em.eventoNome == evento.nome && em.palestrante == palestrante
      requires em.nomeInstituicao == nomeInstituicao && em.identidadeInstituicao == identidadeInstituicao
      requires em.alunos == catalogo.alunos && em.relogio == relogio && em.sha256 == sha256
      requires catalogo.proximoCertificado == em.primeiroId + n
      ensures certificado == CertificadoPara(inscricao, em, n)
    {
      var aluno := catalogo.alunos[inscricao.alunoId];
      var hash := GerarHashValidador(aluno, evento, palestrante, identidadeInstituicao, relogio(n), sha256);
      certificado := Certificado(catalogo.proximoCertificado, inscricao.alunoId, evento.id, palestrante.id,
                                 Some(hash), nomeInstituicao, identidadeInstituicao);
    }
  }

  /** Deleting an id no row carries leaves the table as it is. */
  lemma {:induction false} SemCertificadoIgual(c: seq<Certificado>, id: int)
    ensures (forall x :: x in c ==> x.id != id) ==> SemCertificado(c, id) == c
    decreases |c|
  {
    if c != [] && forall x :: x in c ==> x.id != id {
      var r := c[..|c| - 1];
      assert c == r + [c[|c| - 1]];
      assert forall x :: x in r ==> x in c;
      SemCertificadoIgual(r, id);
    }
  }
}
