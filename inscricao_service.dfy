/** The registration coordinator (InscricaoService): registering a student
    for an event through an ordered chain of checks, recording attendance,
    and removing an enrollment. */
module Inscricoes {
  import opened Wrappers
  import opened Eventos
  import opened Catalogo

  const EventoNaoEncontrado := Falha(NotFound, "Evento não encontrado")
  const AlunoNaoEncontrado := Falha(NotFound, "Aluno não encontrado")
  const AlunoJaInscrito := Falha(Conflict, "Aluno já inscrito neste evento")
  const EventoSemVagas := Falha(BadRequest, "Evento sem vagas disponíveis")
  const AlunoNaoAtendeCriterios := Falha(BadRequest, "Aluno não atende aos critérios deste evento")
  const InscricaoNaoEncontrada := Falha(NotFound, "Inscrição não encontrada")

  /** Taking one enrollment out of the middle of the table takes its id out
      of its own event's list and leaves every other event's list as it was. */
  lemma RemocaoNosIdsDoEvento(a: seq<Inscricao>, x: Inscricao, b: seq<Inscricao>, k: int)
    ensures x.eventoId != k ==> IdsDoEvento(a + b, k) == IdsDoEvento(a + [x] + b, k)
    ensures x.eventoId == k ==> |IdsDoEvento(a + b, k)| == |IdsDoEvento(a + [x] + b, k)| - 1
  {
    IdsDoEventoAnexa(a, x, k);
    IdsDoEventoConcatena(a + [x], b, k);
    IdsDoEventoConcatena(a, b, k);
  }

  /** Changing fields other than the id and the event of enrollments leaves
      every event's list unchanged. */
  lemma {:induction false} MesmasChavesMesmosIds(s: seq<Inscricao>, t: seq<Inscricao>, k: int)
    requires |s| == |t|
    requires forall i :: 0 <= i < |s| ==> s[i].id == t[i].id && s[i].eventoId == t[i].eventoId
    ensures IdsDoEvento(s, k) == IdsDoEvento(t, k)
  {
    if s != [] {
      MesmasChavesMesmosIds(s[..|s| - 1], t[..|t| - 1], k);
    }
  }

  class InscricaoService {
    const catalogo: Catalogo

    constructor (catalogo: Catalogo)
      ensures this.catalogo == catalogo
    {
      this.catalogo := catalogo;
    }

    /** `registrar`: the first failing check decides the outcome (event
        exists, student exists, not yet enrolled, a seat is free, the
        student is eligible); on success one unconfirmed enrollment is
        stored and linked to the event. */
    method Registrar(eventoId: int, alunoId: int, agora: int) returns (r: Result<Inscricao>)
      requires catalogo.Valid()
      modifies catalogo`inscricoes, catalogo`proximaInscricao, catalogo.EventoComId(eventoId)`inscricoes
      ensures catalogo.Valid()
      ensures eventoId !in catalogo.eventos ==> r == Err(EventoNaoEncontrado)
      ensures eventoId in catalogo.eventos && alunoId !in catalogo.alunos ==> r == Err(AlunoNaoEncontrado)
      ensures eventoId in catalogo.eventos && alunoId in catalogo.alunos ==>
        if ExisteInscricao(old(catalogo.inscricoes), eventoId, alunoId) then r == Err(AlunoJaInscrito)
        else if !old(catalogo.eventos[eventoId].TemVagasDisponiveis()) then r == Err(EventoSemVagas)
        else if !old(catalogo.eventos[eventoId].PodeSeInscrever(catalogo.alunos[alunoId])) then r == Err(AlunoNaoAtendeCriterios)
        else r.Ok?
      ensures r.Err? ==>
        && catalogo.inscricoes == old(catalogo.inscricoes)
        && catalogo.proximaInscricao == old(catalogo.proximaInscricao)
        && (eventoId in catalogo.eventos ==> catalogo.eventos[eventoId].inscricoes == old(catalogo.eventos[eventoId].inscricoes))
      ensures r.Ok? ==>
        && eventoId in catalogo.eventos
        && r.value == Inscricao(old(catalogo.proximaInscricao), alunoId, eventoId, agora, None)
        && catalogo.inscricoes == old(catalogo.inscricoes) + [r.value]
        && catalogo.eventos[eventoId].inscricoes == Some(old(catalogo.eventos[eventoId].inscricoes).value + [r.value.id])
        && catalogo.eventos[eventoId].Inscritos() <= Capacidade(catalogo.eventos[eventoId].vagas)
      ensures old(catalogo.LotacaoRespeitada()) ==> catalogo.LotacaoRespeitada()
    {
      if eventoId !in catalogo.eventos {
        return Err(EventoNaoEncontrado);
      }
      var evento := catalogo.eventos[eventoId];
      if alunoId !in catalogo.alunos {
        return Err(AlunoNaoEncontrado);
      }
      var aluno := catalogo.alunos[alunoId];
      if ExisteInscricao(catalogo.inscricoes, eventoId, alunoId) {
        return Err(AlunoJaInscrito);
      }
      if !evento.TemVagasDisponiveis() {
        return Err(EventoSemVagas);
      }
      if !evento.PodeSeInscrever(aluno) {
        return Err(AlunoNaoAtendeCriterios);
      }

      var inscricao := Inscricao(catalogo.proximaInscricao, alunoId, eventoId, agora, None);
      assert evento.inscricoes == Some(IdsDoEvento(catalogo.inscricoes, eventoId));
      Gravar(evento, inscricao);
      r := Ok(inscricao);
    }

    /** `evento.getInscricoes().add(inscricao)` followed by
        `inscricaoRepository.save(inscricao)`: the new enrollment is stored
        under the next id and linked to its event. */
    method Gravar(evento: Evento, inscricao: Inscricao)
      requires catalogo.Valid()
      requires inscricao.eventoId in catalogo.eventos && catalogo.eventos[inscricao.eventoId] == evento
      requires inscricao.alunoId in catalogo.alunos
      requires inscricao.id == catalogo.proximaInscricao
      requires !ExisteInscricao(catalogo.inscricoes, inscricao.eventoId, inscricao.alunoId)
      requires |IdsDoEvento(catalogo.inscricoes, inscricao.eventoId)| < Capacidade(evento.vagas)
      modifies catalogo`inscricoes, catalogo`proximaInscricao, evento`inscricoes
      ensures catalogo.Valid()
      ensures catalogo.inscricoes == old(catalogo.inscricoes) + [inscricao]
      ensures catalogo.proximaInscricao == old(catalogo.proximaInscricao) + 1
      ensures evento.inscricoes == Some(old(evento.inscricoes).value + [inscricao.id])
      ensures old(catalogo.LotacaoRespeitada()) ==> catalogo.LotacaoRespeitada()
    {
      var eventoId := inscricao.eventoId;
      ghost var antes := catalogo.inscricoes;
      ghost var lotado := catalogo.LotacaoRespeitada();
      assert catalogo.EventosIndexados();
      AnexarBemFormada(antes, inscricao, inscricao.id, catalogo.alunos.Keys, catalogo.eventos.Keys);
      evento.inscricoes := Some(evento.inscricoes.value + [inscricao.id]);
      catalogo.inscricoes := catalogo.inscricoes + [inscricao];
      catalogo.proximaInscricao := catalogo.proximaInscricao + 1;
      forall k | k in catalogo.eventos
        ensures catalogo.eventos[k].id == k
        ensures catalogo.eventos[k].inscricoes == Some(IdsDoEvento(catalogo.inscricoes, k))
        ensures lotado ==> |IdsDoEvento(catalogo.inscricoes, k)| <= Capacidade(catalogo.eventos[k].vagas)
      {
        IdsDoEventoAnexa(antes, inscricao, k);
        assert old(catalogo.eventos[k].inscricoes) == Some(IdsDoEvento(antes, k));
        if k == eventoId {
          assert catalogo.eventos[k] == evento;
        } else {
          assert catalogo.eventos[k] != evento by {
            assert old(catalogo.eventos[k].id) == k && old(evento.id) == eventoId;
          }
        }
      }
    }

    /** `atualizarPresenca`: overwrites the attendance of one enrollment and
        nothing else. */
    method AtualizarPresenca(inscricaoId: int, presente: Option<bool>) returns (r: Result<Inscricao>)
      requires catalogo.Valid()
      modifies catalogo`inscricoes
      ensures catalogo.Valid()
      ensures BuscarInscricao(old(catalogo.inscricoes), inscricaoId).None? ==>
        r == Err(InscricaoNaoEncontrada) && catalogo.inscricoes == old(catalogo.inscricoes)
      ensures BuscarInscricao(old(catalogo.inscricoes), inscricaoId).Some? ==>
        var i := BuscarInscricao(old(catalogo.inscricoes), inscricaoId).value;
        && r == Ok(old(catalogo.inscricoes)[i].(presenca := presente))
        && catalogo.inscricoes == old(catalogo.inscricoes)[i := r.value]
      ensures old(catalogo.LotacaoRespeitada()) ==> catalogo.LotacaoRespeitada()
    {
      var busca := BuscarInscricao(catalogo.inscricoes, inscricaoId);
      if busca.None? {
        return Err(InscricaoNaoEncontrada);
      }
      var i := busca.value;
      var atualizada := catalogo.inscricoes[i].(presenca := presente);
      ghost var antes := catalogo.inscricoes;
      catalogo.inscricoes := catalogo.inscricoes[i := atualizada];
      assert MesmasChaves(antes, catalogo.inscricoes);
      MesmasChavesBemFormada(antes, catalogo.inscricoes, catalogo.proximaInscricao, catalogo.alunos.Keys, catalogo.eventos.Keys);
      forall k | k in catalogo.eventos
        ensures IdsDoEvento(catalogo.inscricoes, k) == IdsDoEvento(antes, k)
      {
        MesmasChavesMesmosIds(catalogo.inscricoes, antes, k);
      }
      r := Ok(atualizada);
    }

    /** `remover`: deletes the enrollment with this id, if there is one; its
        event's list then no longer holds it. */
    method Remover(inscricaoId: int)
      requires catalogo.Valid()
      modifies catalogo`inscricoes, catalogo.EventoDaInscricao(inscricaoId)`inscricoes
      ensures catalogo.Valid()
      ensures BuscarInscricao(old(catalogo.inscricoes), inscricaoId).None? ==>
        catalogo.inscricoes == old(catalogo.inscricoes)
      ensures BuscarInscricao(old(catalogo.inscricoes), inscricaoId).Some? ==>
        var i := BuscarInscricao(old(catalogo.inscricoes), inscricaoId).value;
        var e := old(catalogo.inscricoes)[i].eventoId;
        && catalogo.inscricoes == old(catalogo.inscricoes)[..i] + old(catalogo.inscricoes)[i + 1..]
        && e in catalogo.eventos
        && catalogo.eventos[e].Inscritos() == old(catalogo.eventos[e].Inscritos()) - 1
        && inscricaoId !in catalogo.eventos[e].inscricoes.value
      ensures old(catalogo.LotacaoRespeitada()) ==> catalogo.LotacaoRespeitada()
    {
      var busca := BuscarInscricao(catalogo.inscricoes, inscricaoId);
      if busca.None? {
        return;
      }
      var i := busca.value;
      BemFormadaFatos(catalogo.inscricoes, catalogo.proximaInscricao, catalogo.alunos.Keys, catalogo.eventos.Keys);
      var evento := catalogo.eventos[catalogo.inscricoes[i].eventoId];
      Excluir(evento, i);
    }

    /** `inscricaoRepository.deleteById` for the enrollment at position `i`,
        together with the refresh of its event's list. */
    method Excluir(evento: Evento, i: nat)
      requires catalogo.Valid()
      requires i < |catalogo.inscricoes|
      requires catalogo.inscricoes[i].eventoId in catalogo.eventos
      requires catalogo.eventos[catalogo.inscricoes[i].eventoId] == evento
      modifies catalogo`inscricoes, evento`inscricoes
      ensures catalogo.Valid()
      ensures catalogo.inscricoes == old(catalogo.inscricoes)[..i] + old(catalogo.inscricoes)[i + 1..]
      ensures evento.Inscritos() == old(evento.Inscritos()) - 1
      ensures old(catalogo.inscricoes)[i].id !in evento.inscricoes.value
      ensures old(catalogo.LotacaoRespeitada()) ==> catalogo.LotacaoRespeitada()
    {
      var antes := catalogo.inscricoes;
      var e := antes[i].eventoId;
      ghost var a, x, b := antes[..i], antes[i], antes[i + 1..];
      assert antes == a + [x] + b;
      ghost var lotado := catalogo.LotacaoRespeitada();
      assert catalogo.EventosIndexados();
      RemoverBemFormada(a, x, b, catalogo.proximaInscricao, catalogo.alunos.Keys, catalogo.eventos.Keys);
      IdRemovido(a, x, b, catalogo.proximaInscricao, catalogo.alunos.Keys, catalogo.eventos.Keys);
      catalogo.inscricoes := antes[..i] + antes[i + 1..];
      assert catalogo.inscricoes == a + b;
      evento.inscricoes := Some(IdsDoEvento(catalogo.inscricoes, e));
      forall k | k in catalogo.eventos
        ensures catalogo.eventos[k].id == k
        ensures catalogo.eventos[k].inscricoes == Some(IdsDoEvento(catalogo.inscricoes, k))
        ensures lotado ==> |IdsDoEvento(catalogo.inscricoes, k)| <= Capacidade(catalogo.eventos[k].vagas)
      {
        RemocaoNosIdsDoEvento(a, x, b, k);
        assert old(catalogo.eventos[k].inscricoes) == Some(IdsDoEvento(antes, k));
        if k != e {
          assert catalogo.eventos[k] != evento by {
            assert old(catalogo.eventos[k].id) == k && old(evento.id) == e;
          }
        }
      }
      RemocaoNosIdsDoEvento(a, x, b, e);
      IdsDoEventoMembros(catalogo.inscricoes, e, x.id);
    }
  }
}
