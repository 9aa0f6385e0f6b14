/** The admission rules of an event: who may enrol (course-based
    eligibility), how many seats remain, and the in-place edits of the
    event's course list. The JPA entity com.model.domain.Evento and the
    plain class com.model.Evento have the same eight methods with the same
    bodies; class Evento below models both. */
module Eventos {
  import opened Wrappers

  /** A course; only its id takes part in eligibility. */
  datatype Curso = Curso(id: int, nome: Option<string>)

  /** A student: a person with the list of courses they are enrolled in
      (which may be null). */
  datatype Aluno = Aluno(id: int, nome: Option<string>, cpf: Option<string>, cursos: Option<seq<Curso>>)

  /** The ids of a list of courses. */
  ghost function Ids(cursos: seq<Curso>): set<int> {
    set c | c in cursos :: c.id
  }

  /** No course occurs twice. */
  ghost predicate SemRepeticao(cursos: seq<Curso>) {
    forall i, j :: 0 <= i < j < |cursos| ==> cursos[i] != cursos[j]
  }

  /** The inner `anyMatch`: some course of the event's list has this id. */
  function PossuiId(cursosEvento: seq<Curso>, id: int): (r: bool)
    ensures r <==> exists c :: c in cursosEvento && c.id == id
  {
    if cursosEvento == [] then false
    else if cursosEvento[0].id == id then true
    else
      var r := PossuiId(cursosEvento[1..], id);
      assert forall c :: c in cursosEvento && c.id == id ==> c in cursosEvento[1..];
      r
  }

  /** The outer `anyMatch`: some course of the student shares its id with
      some course of the event. */
  function AlgumEmComum(cursosAluno: seq<Curso>, cursosEvento: seq<Curso>): (r: bool)
    ensures r <==> exists a, b :: a in cursosAluno && b in cursosEvento && a.id == b.id
  {
    if cursosAluno == [] then false
    else if PossuiId(cursosEvento, cursosAluno[0].id) then true
    else
      var r := AlgumEmComum(cursosAluno[1..], cursosEvento);
      assert forall a :: a in cursosAluno && a != cursosAluno[0] ==> a in cursosAluno[1..];
      r
  }

  /** The list with `curso` appended unless it is already present
      (`if (!cursos.contains(curso)) cursos.add(curso)`). */
  function ComCurso(cursos: seq<Curso>, curso: Curso): (r: seq<Curso>)
    ensures curso in cursos ==> r == cursos
    ensures curso !in cursos ==> r == cursos + [curso]
    ensures curso in r
    ensures forall c :: c in r <==> c in cursos || c == curso
    ensures |cursos| <= |r| && r[..|cursos|] == cursos
    ensures SemRepeticao(cursos) ==> SemRepeticao(r)
  {
    if curso in cursos then cursos else cursos + [curso]
  }

  /** `List.indexOf`: where `curso` first occurs in the list. */
  function PrimeiraPosicao(cursos: seq<Curso>, curso: Curso): (i: nat)
    requires curso in cursos
    ensures i < |cursos| && cursos[i] == curso && curso !in cursos[..i]
  {
    if cursos[0] == curso then 0
    else
      var j := PrimeiraPosicao(cursos[1..], curso);
      assert cursos[..j + 1] == [cursos[0]] + cursos[1..][..j];
      j + 1
  }

  /** The list without the first occurrence of `curso` (`List.remove(Object)`):
      the courses before it and after it, in their order. */
  function SemCurso(cursos: seq<Curso>, curso: Curso): (r: seq<Curso>)
    ensures curso !in cursos ==> r == cursos
    ensures curso in cursos ==> exists i | 0 <= i < |cursos| ::
      cursos[i] == curso && curso !in cursos[..i] && r == cursos[..i] + cursos[i + 1..]
    ensures curso in cursos ==> |r| == |cursos| - 1
    ensures multiset(r) == multiset(cursos) - multiset{curso}
  {
    if curso in cursos then
      var i := PrimeiraPosicao(cursos, curso);
      assert cursos == cursos[..i] + [curso] + cursos[i + 1..];
      cursos[..i] + cursos[i + 1..]
    else
      cursos
  }

  /** Seats left for a capacity and a number of enrollments, computed
      over unbounded integers: what `getVagasDisponiveis` is meant to
      return. Unset capacity means no seats at all. */
  function Disponiveis(vagas: Option<int32>, inscritos: nat): (r: int)
    ensures r >= 0
    ensures vagas.None? ==> r == 0
    ensures r > 0 ==> vagas.Some? && r + inscritos == vagas.value as int
    ensures r == 0 ==> vagas.None? || vagas.value as int <= inscritos
  {
    match vagas
    case None => 0
    case Some(v) => if v as int - inscritos > 0 then v as int - inscritos else 0
  }

  /** `getVagasDisponiveis` exactly as Java evaluates it: `vagas - (int)
      inscritos` is an `int` subtraction and wraps around at 32 bits. */
  function Disponiveis32(vagas: Option<int32>, inscritos: nat): (r: int32)
    ensures r >= 0
    ensures vagas.None? ==> r == 0
  {
    match vagas
    case None => 0
    case Some(v) =>
      var d := Wrap32(v as int - Wrap32(inscritos) as int);
      if d > 0 then d else 0
  }

  class Evento {
    var id: int
    var nome: Option<string>
    /** Courses whose students may enrol; null or empty means open to all. */
    var cursos: Option<seq<Curso>>
    /** Declared capacity; null means no seats. */
    var vagas: Option<int32>
    /** Ids of the enrollments linked to this event. */
    var inscricoes: Option<seq<int>>

    constructor (id: int, nome: Option<string>, cursos: Option<seq<Curso>>, vagas: Option<int32>)
      ensures this.id == id && this.nome == nome && this.cursos == cursos && this.vagas == vagas
      ensures inscricoes == Some([])
    {
      this.id := id;
      this.nome := nome;
      this.cursos := cursos;
      this.vagas := vagas;
      this.inscricoes := Some([]);
    }

    /** `isAbertoATodos`. */
    predicate IsAbertoATodos()
      reads this`cursos
      ensures IsAbertoATodos() <==> cursos.None? || forall c :: c !in cursos.value
    {
      cursos.None? || (assert |cursos.value| > 0 ==> cursos.value[0] in cursos.value; |cursos.value| == 0)
    }

    /** `isRestrito`: the event lists at least one course. */
    predicate IsRestrito()
      reads this`cursos
      ensures IsRestrito() <==> cursos.Some? && |cursos.value| > 0
    {
      !IsAbertoATodos()
    }

    /** `podeSeInscrever`: open events admit everyone; a restricted event
        admits a student only through a course id the two lists share. */
    predicate PodeSeInscrever(aluno: Aluno)
      reads this`cursos
      ensures PodeSeInscrever(aluno) <==>
        IsAbertoATodos() ||
        (aluno.cursos.Some? && exists a, b :: a in aluno.cursos.value && b in cursos.value && a.id == b.id)
    {
      if IsAbertoATodos() then true
      else if aluno.cursos.None? || |aluno.cursos.value| == 0 then false
      else AlgumEmComum(aluno.cursos.value, cursos.value)
    }

    /** `inscricoes.size()`, with a null list counting as 0. */
    function Inscritos(): (r: nat)
      reads this`inscricoes
      ensures inscricoes.None? ==> r == 0
      ensures inscricoes.Some? ==> r == |inscricoes.value|
    {
      if inscricoes.None? then 0 else |inscricoes.value|
    }

    /** `getVagasDisponiveis` over unbounded integers (see Disponiveis32 for
        the 32-bit evaluation). */
    function VagasDisponiveis(): (r: int)
      reads this`vagas, this`inscricoes
      ensures r >= 0
    {
      Disponiveis(vagas, Inscritos())
    }

    /** `temVagasDisponiveis`: capacity is set and not yet reached. */
    predicate TemVagasDisponiveis()
      reads this`vagas, this`inscricoes
      ensures TemVagasDisponiveis() <==> vagas.Some? && Inscritos() < vagas.value as int
    {
      VagasDisponiveis() > 0
    }

    /** `adicionarCurso`: appends a non-null course that is not yet listed. */
    method AdicionarCurso(curso: Option<Curso>)
      requires curso.Some? ==> cursos.Some?
      modifies this`cursos
      ensures curso.None? ==> cursos == old(cursos)
      ensures curso.Some? ==> cursos == Some(ComCurso(old(cursos).value, curso.value))
    {
      if curso.Some? && curso.value !in cursos.value {
        cursos := Some(cursos.value + [curso.value]);
      }
    }

    /** `removerCurso`: removes the first occurrence of a non-null course. */
    method RemoverCurso(curso: Option<Curso>)
      requires curso.Some? ==> cursos.Some?
      modifies this`cursos
      ensures curso.None? ==> cursos == old(cursos)
      ensures curso.Some? ==> cursos == Some(SemCurso(old(cursos).value, curso.value))
    {
      if curso.Some? {
        cursos := Some(SemCurso(cursos.value, curso.value));
      }
    }

    /** `tornarAbertoATodos`: clears the course list, so everyone is admitted. */
    method TornarAbertoATodos()
      requires cursos.Some?
      modifies this`cursos
      ensures cursos == Some([])
      ensures IsAbertoATodos() && !IsRestrito()
      ensures forall aluno :: PodeSeInscrever(aluno)
    {
      cursos := Some([]);
    }
  }

  /** Open and restricted are complementary, and openness is exactly a null
      or empty course list. */
  lemma ClassificacaoAbertoRestrito(e: Evento)
    ensures e.IsAbertoATodos() <==> e.cursos == None || e.cursos == Some([])
    ensures e.IsRestrito() <==> !e.IsAbertoATodos()
  {
  }

  /** An open event admits every student, whatever their courses. */
  lemma AbertoAdmiteTodos(e: Evento, aluno: Aluno)
    requires e.IsAbertoATodos()
    ensures e.PodeSeInscrever(aluno)
  {
  }

  /** A restricted event rejects a student with a null or empty course list. */
  lemma RestritoRejeitaSemCursos(e: Evento, aluno: Aluno)
    requires e.IsRestrito()
    requires aluno.cursos.None? || aluno.cursos.value == []
    ensures !e.PodeSeInscrever(aluno)
  {
  }

  /** For a restricted event, eligibility is a non-empty intersection of the
      two sets of course ids. */
  lemma {:induction false} ElegivelSseIntersecao(e: Evento, aluno: Aluno)
    requires e.IsRestrito()
    ensures e.PodeSeInscrever(aluno) <==>
      aluno.cursos.Some? && Ids(aluno.cursos.value) * Ids(e.cursos.value) != {}
  {
    if aluno.cursos.Some? {
      var ca, ce := aluno.cursos.value, e.cursos.value;
      if e.PodeSeInscrever(aluno) {
        var a, b :| a in ca && b in ce && a.id == b.id;
        assert a.id in Ids(ca) * Ids(ce);
      }
      if Ids(ca) * Ids(ce) != {} {
        var x :| x in Ids(ca) * Ids(ce);
        var a :| a in ca && a.id == x;
        var b :| b in ce && b.id == x;
        assert a in ca && b in ce && a.id == b.id;
      }
    }
  }

  /** The worked example: with courses A, B, C, D, a student in {A, B} is
      eligible for an event requiring {B, C} but not for one requiring {C, D}. */
  lemma ExemploElegibilidade(a: Curso, b: Curso, c: Curso, d: Curso)
    requires a.id != c.id && a.id != d.id && b.id != c.id && b.id != d.id
    ensures AlgumEmComum([a, b], [b, c])
    ensures !AlgumEmComum([a, b], [c, d])
  {
  }

  /** Adding the same course a second time changes nothing. */
  lemma AdicionarCursoIdempotente(cursos: seq<Curso>, curso: Curso)
    ensures ComCurso(ComCurso(cursos, curso), curso) == ComCurso(cursos, curso)
  {
  }

  /** Removing a repeated course takes out its first copy only and keeps
      the order of the rest; adding it back to a list that still holds it
      changes nothing. */
  lemma ExemploRemocao(a: Curso, b: Curso)
    requires a != b
    ensures SemCurso([a, b, a], a) == [b, a]
    ensures ComCurso([b, a], a) == [b, a]
  {
    assert PrimeiraPosicao([a, b, a], a) == 0;
  }

  /** Seat accounting: one more enrollment takes exactly one seat while
      seats remain, and none are left once the capacity is reached. */
  lemma UmaInscricaoOcupaUmaVaga(vagas: Option<int32>, inscritos: nat)
    ensures Disponiveis(vagas, inscritos) > 0 ==>
      Disponiveis(vagas, inscritos + 1) == Disponiveis(vagas, inscritos) - 1
    ensures Disponiveis(vagas, inscritos) == 0 ==> Disponiveis(vagas, inscritos + 1) == 0
  {
  }

  /** Where `vagas - inscritos` fits in an `int`, the 32-bit evaluation and
      the intended one agree. */
  lemma Disponiveis32SemTransbordo(vagas: Option<int32>, inscritos: nat)
    requires inscritos < 0x8000_0000
    requires vagas.Some? ==> vagas.value as int - inscritos >= -0x8000_0000
    ensures Disponiveis32(vagas, inscritos) as int == Disponiveis(vagas, inscritos)
  {
  }

  /** The 32-bit subtraction wraps: capacity -2147483648 with one enrollment
      reports 2147483647 free seats, where the intended value is 0. */
  lemma Disponiveis32Transborda()
    ensures Disponiveis32(Some(-0x8000_0000), 1) == 0x7fff_ffff
    ensures Disponiveis(Some(-0x8000_0000), 1) == 0
  {
  }
}
