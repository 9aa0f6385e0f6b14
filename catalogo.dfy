/** The persistent store the services work against: the Spring Data
    repositories of events, students, speakers, enrollments and
    certificates, as one in-memory object. Enrollments and certificates are
    kept in id order, which is the order in which the derived queries
    (`findByEventoId`, `findByEventoIdAndPresenca`, `findByAlunoId`) return
    them. */
module Catalogo {
  import opened Wrappers
  import opened Eventos

  /** A speaker; the certificate engine reads only the id and the name. */
  datatype Palestrante = Palestrante(id: int, nome: Option<string>)

  /** An enrollment of a student in an event. `presenca` has three states:
      None (not confirmed), Some(true) (present), Some(false) (absent).
      `dataInscricao` is the registration instant. */
  datatype Inscricao = Inscricao(id: int, alunoId: int, eventoId: int, dataInscricao: int, presenca: Option<bool>)

  /** A certificate of attendance for a student at an event, signed by a speaker. */
  datatype Certificado = Certificado(
    id: int,
    alunoId: int,
    eventoId: int,
    palestranteId: int,
    hashCertificado: Option<string>,
    nomeInstituicao: Option<string>,
    identidadeInstituicao: Option<string>)

  /** The ids of the enrollments of one event, in store order: the event's
      side of the `mappedBy = "evento"` association. */
  function IdsDoEvento(s: seq<Inscricao>, eventoId: int): (r: seq<int>)
    ensures |r| <= |s|
  {
    if s == [] then []
    else
      var ultima := s[|s| - 1];
      IdsDoEvento(s[..|s| - 1], eventoId) + (if ultima.eventoId == eventoId then [ultima.id] else [])
  }

  lemma {:induction false} IdsDoEventoConcatena(a: seq<Inscricao>, b: seq<Inscricao>, eventoId: int)
    ensures IdsDoEvento(a + b, eventoId) == IdsDoEvento(a, eventoId) + IdsDoEvento(b, eventoId)
    decreases |b|
  {
    if b == [] {
      assert a + b == a;
    } else {
      var b' := b[..|b| - 1];
      assert (a + b)[..|a + b| - 1] == a + b';
      IdsDoEventoConcatena(a, b', eventoId);
    }
  }

  /** Appending one enrollment extends its event's list by its id and
      leaves every other event's list alone. */
  lemma IdsDoEventoAnexa(s: seq<Inscricao>, x: Inscricao, eventoId: int)
    ensures x.eventoId == eventoId ==> IdsDoEvento(s + [x], eventoId) == IdsDoEvento(s, eventoId) + [x.id]
    ensures x.eventoId != eventoId ==> IdsDoEvento(s + [x], eventoId) == IdsDoEvento(s, eventoId)
  {
    assert (s + [x])[..|s|] == s;
    assert IdsDoEvento(s, eventoId) + [] == IdsDoEvento(s, eventoId);
  }

  lemma {:induction false} IdsDoEventoMembros(s: seq<Inscricao>, eventoId: int, x: int)
    ensures x in IdsDoEvento(s, eventoId) <==> exists i :: 0 <= i < |s| && s[i].id == x && s[i].eventoId == eventoId
  {
    if s != [] {
      var s' := s[..|s| - 1];
      IdsDoEventoMembros(s', eventoId, x);
      if x in IdsDoEvento(s', eventoId) {
        var i :| 0 <= i < |s'| && s'[i].id == x && s'[i].eventoId == eventoId;
        assert s[i] == s'[i];
      }
      if exists i :: 0 <= i < |s| && s[i].id == x && s[i].eventoId == eventoId {
        var i :| 0 <= i < |s| && s[i].id == x && s[i].eventoId == eventoId;
        if i < |s'| {
          assert s'[i] == s[i];
        }
      }
    }
  }

  /** `existsByEventoIdAndAlunoId`. */
  predicate ExisteInscricao(s: seq<Inscricao>, eventoId: int, alunoId: int) {
    exists i | 0 <= i < |s| :: s[i].eventoId == eventoId && s[i].alunoId == alunoId
  }

  /** `findById` over enrollments: the position of the one with this id. */
  function BuscarInscricao(s: seq<Inscricao>, id: int): (r: Option<nat>)
    ensures r.Some? ==> r.value < |s| && s[r.value].id == id
    ensures r.None? ==> forall i :: 0 <= i < |s| ==> s[i].id != id
  {
    if s == [] then None
    else if s[0].id == id then Some(0)
    else
      match BuscarInscricao(s[1..], id)
      case None => None
      case Some(i) => Some(i + 1)
  }

  /** `findByEventoId` over enrollments: the event's enrollments, in store order. */
  function InscricoesDoEvento(s: seq<Inscricao>, eventoId: int): (r: seq<Inscricao>)
    ensures |r| <= |s|
    ensures forall x :: x in r <==> x in s && x.eventoId == eventoId
  {
    if s == [] then []
    else
      var ultima := s[|s| - 1];
      assert s == s[..|s| - 1] + [ultima];
      InscricoesDoEvento(s[..|s| - 1], eventoId) + (if ultima.eventoId == eventoId then [ultima] else [])
  }

  /** `existsByEventoIdAndAlunoId` holds exactly when the student owns one
      of the rows `findByEventoId` returns. */
  lemma ExisteInscricaoSse(s: seq<Inscricao>, eventoId: int, alunoId: int)
    ensures ExisteInscricao(s, eventoId, alunoId) <==>
      exists x :: x in InscricoesDoEvento(s, eventoId) && x.alunoId == alunoId
  {
    if ExisteInscricao(s, eventoId, alunoId) {
      var i :| 0 <= i < |s| && s[i].eventoId == eventoId && s[i].alunoId == alunoId;
      assert s[i] in InscricoesDoEvento(s, eventoId);
    }
  }

  /** `findByAlunoId` over enrollments: the student's enrollments, in store order. */
  function InscricoesDoAluno(s: seq<Inscricao>, alunoId: int): (r: seq<Inscricao>)
    ensures |r| <= |s|
    ensures forall x :: x in r <==> x in s && x.alunoId == alunoId
  {
    if s == [] then []
    else
      var ultima := s[|s| - 1];
      assert s == s[..|s| - 1] + [ultima];
      InscricoesDoAluno(s[..|s| - 1], alunoId) + (if ultima.alunoId == alunoId then [ultima] else [])
  }

  /** The event's own enrollment list and the repository query agree: the
      list holds, in order, the ids of what `findByEventoId` returns. */
  lemma {:induction false} IdsDasInscricoesDoEvento(s: seq<Inscricao>, eventoId: int)
    ensures |IdsDoEvento(s, eventoId)| == |InscricoesDoEvento(s, eventoId)|
    ensures forall i :: 0 <= i < |IdsDoEvento(s, eventoId)| ==>
      IdsDoEvento(s, eventoId)[i] == InscricoesDoEvento(s, eventoId)[i].id
    decreases |s|
  {
    if s != [] {
      IdsDasInscricoesDoEvento(s[..|s| - 1], eventoId);
    }
  }

  /** `findByEventoIdAndPresenca(eventoId, true)`: the event's enrollments
      whose attendance is confirmed, in store order. */
  function Presentes(s: seq<Inscricao>, eventoId: int): (r: seq<Inscricao>)
    ensures |r| <= |s|
    ensures forall x :: x in r <==> x in s && x.eventoId == eventoId && x.presenca == Some(true)
  {
    if s == [] then []
    else
      var ultima := s[|s| - 1];
      assert s == s[..|s| - 1] + [ultima];
      Presentes(s[..|s| - 1], eventoId) +
        (if ultima.eventoId == eventoId && ultima.presenca == Some(true) then [ultima] else [])
  }

  /** `findByAlunoId` over certificates. */
  function CertificadosDoAluno(c: seq<Certificado>, alunoId: int): (r: seq<Certificado>)
    ensures |r| <= |c|
    ensures forall x :: x in r <==> x in c && x.alunoId == alunoId
  {
    if c == [] then []
    else
      var ultimo := c[|c| - 1];
      assert c == c[..|c| - 1] + [ultimo];
      CertificadosDoAluno(c[..|c| - 1], alunoId) + (if ultimo.alunoId == alunoId then [ultimo] else [])
  }

  /** `findByEventoId` over certificates. */
  function CertificadosDoEvento(c: seq<Certificado>, eventoId: int): (r: seq<Certificado>)
    ensures |r| <= |c|
    ensures forall x :: x in r <==> x in c && x.eventoId == eventoId
  {
    if c == [] then []
    else
      var ultimo := c[|c| - 1];
      assert c == c[..|c| - 1] + [ultimo];
      CertificadosDoEvento(c[..|c| - 1], eventoId) + (if ultimo.eventoId == eventoId then [ultimo] else [])
  }

  /** The certificates carrying this hash; a null hash selects the
      certificates without one (the derived query's `IS NULL`). */
  function CertificadosComHash(c: seq<Certificado>, hash: Option<string>): (r: seq<Certificado>)
    ensures |r| <= |c|
    ensures forall x :: x in r <==> x in c && x.hashCertificado == hash
  {
    if c == [] then []
    else
      var ultimo := c[|c| - 1];
      assert c == c[..|c| - 1] + [ultimo];
      CertificadosComHash(c[..|c| - 1], hash) + (if ultimo.hashCertificado == hash then [ultimo] else [])
  }

  /** At most one enrollment per (student, event) pair. */
  ghost predicate InscricoesUnicas(s: seq<Inscricao>) {
    forall i, j :: 0 <= i < j < |s| ==> !(s[i].alunoId == s[j].alunoId && s[i].eventoId == s[j].eventoId)
  }

  /** The enrollment table's own invariant, read from the last row back:
      every row's id is below the next identity value (so ids strictly
      increase), refers to a known student and event, and its (student,
      event) pair does not occur in an earlier row. */
  ghost predicate InscricoesBemFormadas(s: seq<Inscricao>, proximo: int, alunos: set<int>, eventos: set<int>)
    decreases |s|
  {
    if s == [] then true
    else
      var anteriores, ultima := s[..|s| - 1], s[|s| - 1];
      && InscricoesBemFormadas(anteriores, ultima.id, alunos, eventos)
      && ultima.id < proximo
      && ultima.alunoId in alunos && ultima.eventoId in eventos
      && !ExisteInscricao(anteriores, ultima.eventoId, ultima.alunoId)
  }

  /** Raising the next identity value keeps the table well formed. */
  lemma {:induction false} BemFormadaMonotona(s: seq<Inscricao>, p: int, q: int, alunos: set<int>, eventos: set<int>)
    requires InscricoesBemFormadas(s, p, alunos, eventos) && p <= q
    ensures InscricoesBemFormadas(s, q, alunos, eventos)
  {
  }

  /** In a well-formed table ids strictly increase, stay below the next
      identity value, and no (student, event) pair occurs twice. */
  lemma {:induction false} BemFormadaFatos(s: seq<Inscricao>, p: int, alunos: set<int>, eventos: set<int>)
    requires InscricoesBemFormadas(s, p, alunos, eventos)
    ensures forall i :: 0 <= i < |s| ==> s[i].id < p && s[i].alunoId in alunos && s[i].eventoId in eventos
    ensures forall i, j :: 0 <= i < j < |s| ==> s[i].id < s[j].id
    ensures InscricoesUnicas(s)
    decreases |s|
  {
    if s != [] {
      var r, u := s[..|s| - 1], s[|s| - 1];
      BemFormadaFatos(r, u.id, alunos, eventos);
      forall i, j | 0 <= i < j < |s|
        ensures s[i].id < s[j].id
        ensures !(s[i].alunoId == s[j].alunoId && s[i].eventoId == s[j].eventoId)
      {
        assert s[i] == r[i];
        if j < |r| {
          assert s[j] == r[j];
        }
      }
    }
  }

  /** Saving a new enrollment under the next id, for a pair not yet
      enrolled, keeps the table well formed. */
  lemma AnexarBemFormada(s: seq<Inscricao>, x: Inscricao, proximo: int, alunos: set<int>, eventos: set<int>)
    requires InscricoesBemFormadas(s, proximo, alunos, eventos)
    requires x.id == proximo && x.alunoId in alunos && x.eventoId in eventos
    requires !ExisteInscricao(s, x.eventoId, x.alunoId)
    ensures InscricoesBemFormadas(s + [x], proximo + 1, alunos, eventos)
  {
    assert (s + [x])[..|s|] == s;
  }

  /** Deleting one enrollment from the middle of a well-formed table keeps
      it well formed. */
  lemma {:induction false} RemoverBemFormada(a: seq<Inscricao>, x: Inscricao, b: seq<Inscricao>, proximo: int, alunos: set<int>, eventos: set<int>)
    requires InscricoesBemFormadas(a + [x] + b, proximo, alunos, eventos)
    ensures InscricoesBemFormadas(a + b, proximo, alunos, eventos)
    decreases |b|
  {
    if b == [] {
      assert a + [x] + b == a + [x] && (a + [x])[..|a|] == a && a + b == a;
      BemFormadaMonotona(a, x.id, proximo, alunos, eventos);
    } else {
      var b', u := b[..|b| - 1], b[|b| - 1];
      var t := a + [x] + b;
      assert t[..|t| - 1] == a + [x] + b' && t[|t| - 1] == u;
      RemoverBemFormada(a, x, b', u.id, alunos, eventos);
      var t' := a + b;
      assert t'[..|t'| - 1] == a + b' && t'[|t'| - 1] == u;
      forall i | 0 <= i < |a + b'|
        ensures !((a + b')[i].eventoId == u.eventoId && (a + b')[i].alunoId == u.alunoId)
      {
        if i < |a| {
          assert (a + [x] + b')[i] == (a + b')[i];
        } else {
          assert (a + [x] + b')[i + 1] == (a + b')[i];
        }
      }
    }
  }

  /** After deleting a row of a well-formed table no other row carries its id. */
  lemma IdRemovido(a: seq<Inscricao>, x: Inscricao, b: seq<Inscricao>, proximo: int, alunos: set<int>, eventos: set<int>)
    requires InscricoesBemFormadas(a + [x] + b, proximo, alunos, eventos)
    ensures forall j :: 0 <= j < |a + b| ==> (a + b)[j].id != x.id
  {
    var t := a + [x] + b;
    BemFormadaFatos(t, proximo, alunos, eventos);
    forall j | 0 <= j < |a + b|
      ensures (a + b)[j].id != x.id
    {
      if j < |a| {
        assert (a + b)[j] == t[j] && t[|a|] == x;
      } else {
        assert (a + b)[j] == t[j + 1] && t[|a|] == x;
      }
    }
  }

  /** Two tables with the same id, student and event in every row. */
  ghost predicate MesmasChaves(s: seq<Inscricao>, t: seq<Inscricao>) {
    |s| == |t| && forall i :: 0 <= i < |s| ==> s[i].id == t[i].id && s[i].alunoId == t[i].alunoId && s[i].eventoId == t[i].eventoId
  }

  /** Well-formedness depends only on ids, students and events, so
      overwriting other fields (the attendance) keeps it. */
  lemma {:induction false} MesmasChavesBemFormada(s: seq<Inscricao>, t: seq<Inscricao>, proximo: int, alunos: set<int>, eventos: set<int>)
    requires MesmasChaves(s, t)
    requires InscricoesBemFormadas(s, proximo, alunos, eventos)
    ensures InscricoesBemFormadas(t, proximo, alunos, eventos)
    decreases |s|
  {
    if s != [] {
      var r, r' := s[..|s| - 1], t[..|t| - 1];
      assert MesmasChaves(r, r');
      MesmasChavesBemFormada(r, r', s[|s| - 1].id, alunos, eventos);
      assert forall i :: 0 <= i < |r'| ==> r'[i].eventoId == r[i].eventoId && r'[i].alunoId == r[i].alunoId;
    }
  }

  /** The certificate table's invariant, read from the last row back: every
      id is below the next identity value, so ids strictly increase. */
  ghost predicate CertificadosBemFormados(c: seq<Certificado>, proximo: int)
    decreases |c|
  {
    c == [] || (CertificadosBemFormados(c[..|c| - 1], c[|c| - 1].id) && c[|c| - 1].id < proximo)
  }

  lemma {:induction false} CertificadosMonotona(c: seq<Certificado>, p: int, q: int)
    requires CertificadosBemFormados(c, p) && p <= q
    ensures CertificadosBemFormados(c, q)
  {
  }

  /** Ids in a well-formed certificate table strictly increase and stay
      below the next identity value. */
  lemma {:induction false} CertificadosFatos(c: seq<Certificado>, p: int)
    requires CertificadosBemFormados(c, p)
    ensures forall i :: 0 <= i < |c| ==> c[i].id < p
    ensures forall i, j :: 0 <= i < j < |c| ==> c[i].id < c[j].id
    decreases |c|
  {
    if c != [] {
      var r := c[..|c| - 1];
      CertificadosFatos(r, c[|c| - 1].id);
      assert forall i :: 0 <= i < |r| ==> c[i] == r[i];
    }
  }

  /** Saving a certificate under the next id keeps the table well formed. */
  lemma AnexarCertificado(c: seq<Certificado>, x: Certificado, proximo: int)
    requires CertificadosBemFormados(c, proximo) && x.id == proximo
    ensures CertificadosBemFormados(c + [x], proximo + 1)
  {
    assert (c + [x])[..|c|] == c;
  }

  /** `deleteById` over certificates: the table without the row carrying
      this id (a missing id deletes nothing). */
  function SemCertificado(c: seq<Certificado>, id: int): (r: seq<Certificado>)
    ensures |r| <= |c|
    ensures forall x :: x in r <==> x in c && x.id != id
  {
    if c == [] then []
    else
      var ultimo := c[|c| - 1];
      assert c == c[..|c| - 1] + [ultimo];
      SemCertificado(c[..|c| - 1], id) + (if ultimo.id != id then [ultimo] else [])
  }

  /** Deleting by id keeps the table well formed. */
  lemma {:induction false} SemCertificadoBemFormada(c: seq<Certificado>, id: int, p: int)
    requires CertificadosBemFormados(c, p)
    ensures CertificadosBemFormados(SemCertificado(c, id), p)
    decreases |c|
  {
    if c != [] {
      var r, u := c[..|c| - 1], c[|c| - 1];
      SemCertificadoBemFormada(r, id, u.id);
      var sr := SemCertificado(r, id);
      if u.id != id {
        assert (sr + [u])[..|sr|] == sr;
      } else {
        assert sr + [] == sr;
        CertificadosMonotona(sr, u.id, p);
      }
    }
  }

  /** Ids being unique, deleting a present id removes exactly one row, and
      deleting an absent one removes none. */
  lemma {:induction false} SemCertificadoConta(c: seq<Certificado>, id: int, p: int)
    requires CertificadosBemFormados(c, p)
    ensures (exists x :: x in c && x.id == id) ==> |SemCertificado(c, id)| == |c| - 1
    ensures (forall x :: x in c ==> x.id != id) ==> |SemCertificado(c, id)| == |c|
    decreases |c|
  {
    if c != [] {
      var r, u := c[..|c| - 1], c[|c| - 1];
      assert c == r + [u];
      SemCertificadoConta(r, id, u.id);
      if u.id == id {
        CertificadosFatos(r, u.id);
        assert forall x :: x in r ==> x.id != id;
      } else if exists x :: x in c && x.id == id {
        var x :| x in c && x.id == id;
        assert x in r;
      }
    }
  }

  /** The seats an event can ever fill: its capacity, or 0 when unset. */
  function Capacidade(vagas: Option<int32>): (r: nat) {
    match vagas
    case None => 0
    case Some(v) => if v >= 0 then v as nat else 0
  }

  class Catalogo {
    var eventos: map<int, Evento>
    var alunos: map<int, Aluno>
    var palestrantes: map<int, Palestrante>
    var inscricoes: seq<Inscricao>
    var certificados: seq<Certificado>
    /** The next identity value of each table. */
    var proximaInscricao: int
    var proximoCertificado: int

    /** The store's consistency: every record is filed under its own id,
        generated ids only grow, every enrollment refers to a stored student
        and event, each event's enrollment list is exactly the enrollments
        that refer to it, and no (student, event) pair is enrolled twice. */
    ghost predicate Valid()
      reads this, eventos.Values`id, eventos.Values`inscricoes
    {
      EventosIndexados() && PessoasIndexadas() && InscricoesConsistentes() && CertificadosConsistentes()
    }

    /** Each event is filed under its id, and its enrollment list is what
        the enrollment table holds for it. */
    ghost predicate EventosIndexados()
      reads this`eventos, this`inscricoes, eventos.Values`id, eventos.Values`inscricoes
    {
      forall k | k in eventos :: eventos[k].id == k && eventos[k].inscricoes == Some(IdsDoEvento(inscricoes, k))
    }

    ghost predicate PessoasIndexadas()
      reads this`alunos, this`palestrantes
    {
      && (forall k :: k in alunos ==> alunos[k].id == k)
      && (forall k :: k in palestrantes ==> palestrantes[k].id == k)
    }

    ghost predicate InscricoesConsistentes()
      reads this`inscricoes, this`proximaInscricao, this`alunos, this`eventos
    {
      InscricoesBemFormadas(inscricoes, proximaInscricao, alunos.Keys, eventos.Keys)
    }

    ghost predicate CertificadosConsistentes()
      reads this`certificados, this`proximoCertificado
    {
      CertificadosBemFormados(certificados, proximoCertificado)
    }

    /** No event holds more enrollments than its capacity. Registration,
        attendance updates and removals all preserve it. */
    ghost predicate LotacaoRespeitada()
      reads this`eventos, this`inscricoes, eventos.Values`vagas
      ensures LotacaoRespeitada() ==>
        forall k | k in eventos && eventos[k].vagas.None? :: IdsDoEvento(inscricoes, k) == []
    {
      forall k | k in eventos :: |IdsDoEvento(inscricoes, k)| <= Capacidade(eventos[k].vagas)
    }

    /** The event object stored under `id`, if any. */
    function EventoComId(id: int): set<Evento>
      reads this
    {
      if id in eventos then {eventos[id]} else {}
    }

    /** The event object of the enrollment with this id, if both exist. */
    function EventoDaInscricao(inscricaoId: int): set<Evento>
      reads this
    {
      match BuscarInscricao(inscricoes, inscricaoId)
      case None => {}
      case Some(i) => EventoComId(inscricoes[i].eventoId)
    }

    constructor ()
      ensures Valid() && LotacaoRespeitada()
      ensures eventos == map[] && alunos == map[] && palestrantes == map[]
      ensures inscricoes == [] && certificados == []
    {
      eventos, alunos, palestrantes := map[], map[], map[];
      inscricoes, certificados := [], [];
      proximaInscricao, proximoCertificado := 1, 1;
    }
  }
}
