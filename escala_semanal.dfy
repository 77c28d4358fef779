/** The weekly view behind `GET /api/escala-semanal`: every absence of the week joined with
    its teacher, subject, class and substitution, and the substitution with its substitute.

    The joins go through JavaScript `Map`s built from whole tables, so when two rows share a
    key the LATER row is the one found. The assignment run looks substitutions up with
    `Array.prototype.find`, which finds the EARLIER one; `VisaoConcordaComArmazem` shows the
    two agree whenever the store keeps its invariants. */
module EscalaSemanal {
  import opened Wrappers
  import opened Tables
  import opened Schema
  import opened Storage
  import opened Escala

  datatype SubstituicaoCompleta = SubstituicaoCompleta(substituicao: Substituicao, professorSubstituto: Option<Professor>)

  datatype AusenciaCompleta = AusenciaCompleta(
    ausencia: Ausencia,
    professor: Option<Professor>,
    disciplina: Option<Disciplina>,
    turma: Option<Turma>,
    substituicao: Option<SubstituicaoCompleta>)

  datatype Semanal = Semanal(semana: int, ano: int, ausencias: seq<AusenciaCompleta>)

  // ---------------------------------------------------------------- lookups through a Map

  /** `new Map(professores.map(p => [p.id, p])).get(id)`. */
  function ProfessorNoMapa(profs: seq<Professor>, id: Id): (r: Option<Professor>)
    ensures r.Some? ==> r.value in profs && r.value.id == id
    ensures r.None? <==> forall p :: p in profs ==> p.id != id
  {
    FindLast(profs, (p: Professor) => p.id == id)
  }

  /** `new Map(disciplinas.map(d => [d.id, d])).get(id)`. */
  function DisciplinaNoMapa(discs: seq<Disciplina>, id: Id): (r: Option<Disciplina>)
    ensures r.Some? ==> r.value in discs && r.value.id == id
    ensures r.None? <==> forall d :: d in discs ==> d.id != id
  {
    FindLast(discs, (d: Disciplina) => d.id == id)
  }

  /** `new Map(turmas.map(t => [t.id, t])).get(id)`. */
  function TurmaNoMapa(turmas: seq<Turma>, id: Id): (r: Option<Turma>)
    ensures r.Some? ==> r.value in turmas && r.value.id == id
    ensures r.None? <==> forall t :: t in turmas ==> t.id != id
  {
    FindLast(turmas, (t: Turma) => t.id == id)
  }

  /** `new Map(substituicoes.map(s => [s.ausenciaId, s])).get(ausenciaId)`: the last
      substitution of the absence. */
  function SubstituicaoNoMapa(subs: seq<Substituicao>, ausenciaId: Id): (r: Option<Substituicao>)
    ensures r.Some? ==> r.value in subs && r.value.ausenciaId == ausenciaId
    ensures r.None? <==> forall s :: s in subs ==> s.ausenciaId != ausenciaId
    ensures r.Some? ==> exists i :: 0 <= i < |subs| && subs[i] == r.value &&
                                    forall j :: i < j < |subs| ==> subs[j].ausenciaId != ausenciaId
  {
    FindLast(subs, (s: Substituicao) => s.ausenciaId == ausenciaId)
  }

  // ---------------------------------------------------------------- the view

  /** The substitution with its substitute: present only when the substitution names one and
      that teacher exists. */
  function Completa(s: Substituicao, profs: seq<Professor>): (r: SubstituicaoCompleta)
    ensures r.substituicao == s
    ensures r.professorSubstituto.Some? <==>
              s.professorSubstitutoId.Some? && exists p :: p in profs && p.id == s.professorSubstitutoId.value
    ensures r.professorSubstituto.Some? ==>
              r.professorSubstituto.value in profs && r.professorSubstituto.value.id == s.professorSubstitutoId.value
  {
    SubstituicaoCompleta(
      s,
      if s.professorSubstitutoId.Some? then ProfessorNoMapa(profs, s.professorSubstitutoId.value) else None)
  }

  /** One absence with everything it refers to; a reference to a missing row stays empty. */
  function Completar(a: Ausencia, profs: seq<Professor>, discs: seq<Disciplina>, turmas: seq<Turma>, subs: seq<Substituicao>)
    : (r: AusenciaCompleta)
    ensures r.ausencia == a
    ensures r.professor.Some? <==> exists p :: p in profs && p.id == a.professorId
    ensures r.professor.Some? ==> r.professor.value in profs && r.professor.value.id == a.professorId
    ensures r.disciplina.Some? <==> exists d :: d in discs && d.id == a.disciplinaId
    ensures r.disciplina.Some? ==> r.disciplina.value in discs && r.disciplina.value.id == a.disciplinaId
    ensures r.turma.Some? <==> exists t :: t in turmas && t.id == a.turmaId
    ensures r.turma.Some? ==> r.turma.value in turmas && r.turma.value.id == a.turmaId
    ensures r.substituicao.Some? <==> exists s :: s in subs && s.ausenciaId == a.id
    ensures r.substituicao.Some? ==>
              && r.substituicao.value.substituicao == SubstituicaoNoMapa(subs, a.id).value
              && r.substituicao.value.substituicao.ausenciaId == a.id
              && r.substituicao.value == Completa(SubstituicaoNoMapa(subs, a.id).value, profs)
  {
    AusenciaCompleta(
      a,
      ProfessorNoMapa(profs, a.professorId),
      DisciplinaNoMapa(discs, a.disciplinaId),
      TurmaNoMapa(turmas, a.turmaId),
      match SubstituicaoNoMapa(subs, a.id)
      case Some(s) => Some(Completa(s, profs))
      case None => None)
  }

  /** The weekly view: refused without a week and a year; otherwise the absences of that week
      and year, in table order, each completed. */
  function EscalaDaSemana(
    semana: Option<int>, ano: Option<int>,
    aus: seq<Ausencia>, profs: seq<Professor>, discs: seq<Disciplina>, turmas: seq<Turma>, subs: seq<Substituicao>)
    : (r: Result<Semanal, Erro>)
    ensures r.Failure? <==> !ParametrosPresentes(semana, ano)
    ensures r.Failure? ==> r.error == SemanaEAnoObrigatorios
    ensures r.Success? ==>
              && r.value.semana == semana.value && r.value.ano == ano.value
              && |r.value.ausencias| == |AusenciasDaSemana(aus, semana.value, ano.value)|
              && (forall i :: 0 <= i < |r.value.ausencias| ==>
                    r.value.ausencias[i] ==
                    Completar(AusenciasDaSemana(aus, semana.value, ano.value)[i], profs, discs, turmas, subs))
  {
    if !ParametrosPresentes(semana, ano) then Failure(SemanaEAnoObrigatorios)
    else
      var daSemana := AusenciasDaSemana(aus, semana.value, ano.value);
      Success(Semanal(semana.value, ano.value,
        seq(|daSemana|, i requires 0 <= i < |daSemana| => Completar(daSemana[i], profs, discs, turmas, subs))))
  }

  // ---------------------------------------------------------------- agreement with the store

  /** With distinct ids the Map lookup finds the same teacher as the run's `find`. */
  lemma ProfessorNoMapaEhProfessorCom(profs: seq<Professor>, id: Id)
    requires DistinctKeys(profs, ProfessorId)
    ensures ProfessorNoMapa(profs, id) == ProfessorCom(profs, id)
  {
    var f, l := FirstIndex(profs, (p: Professor) => p.id == id), LastIndex(profs, (p: Professor) => p.id == id);
    if f.Some? && l.Some? {
      assert ProfessorId(profs[f.value]) == ProfessorId(profs[l.value]);
    }
  }

  /** With exactly one substitution per absence the Map lookup finds the same substitution
      as the run's `find`. */
  lemma SubstituicaoNoMapaEhSubstituicaoDa(subs: seq<Substituicao>, ausenciaId: Id)
    requires |SubstituicoesDe(subs, ausenciaId)| <= 1
    ensures SubstituicaoNoMapa(subs, ausenciaId) == SubstituicaoDa(subs, ausenciaId)
  {
    FirstIsLastWhenSingle(subs, (s: Substituicao) => s.ausenciaId == ausenciaId);
  }

  /** When the store keeps its invariants (distinct teacher ids, one substitution per absence),
      every absence of the week is shown with its substitution, and the view shows the same
      teacher and the same substitution the assignment run acts on. */
  lemma VisaoConcordaComArmazem(
    semana: int, ano: int,
    aus: seq<Ausencia>, profs: seq<Professor>, discs: seq<Disciplina>, turmas: seq<Turma>, subs: seq<Substituicao>)
    requires semana != 0 && ano != 0
    requires DistinctKeys(profs, ProfessorId)
    requires Pareadas(aus, subs)
    ensures var v := EscalaDaSemana(Some(semana), Some(ano), aus, profs, discs, turmas, subs);
            && v.Success?
            && forall i :: 0 <= i < |v.value.ausencias| ==>
                 var x := v.value.ausencias[i];
                 && x.professor == ProfessorCom(profs, x.ausencia.professorId)
                 && x.substituicao.Some?
                 && x.substituicao.value.substituicao == SubstituicaoDa(subs, x.ausencia.id).value
  {
    var v := EscalaDaSemana(Some(semana), Some(ano), aus, profs, discs, turmas, subs);
    var daSemana := AusenciasDaSemana(aus, semana, ano);
    forall i | 0 <= i < |v.value.ausencias|
      ensures v.value.ausencias[i].professor == ProfessorCom(profs, daSemana[i].professorId)
      ensures v.value.ausencias[i].substituicao.Some?
      ensures v.value.ausencias[i].substituicao.value.substituicao == SubstituicaoDa(subs, daSemana[i].id).value
    {
      JuncaoConcorda(daSemana[i], aus, profs, discs, turmas, subs);
    }
  }

  lemma JuncaoConcorda(a: Ausencia, aus: seq<Ausencia>, profs: seq<Professor>, discs: seq<Disciplina>, turmas: seq<Turma>, subs: seq<Substituicao>)
    requires a in aus
    requires DistinctKeys(profs, ProfessorId)
    requires Pareadas(aus, subs)
    ensures var x := Completar(a, profs, discs, turmas, subs);
            && x.professor == ProfessorCom(profs, a.professorId)
            && x.substituicao.Some?
            && x.substituicao.value.substituicao == SubstituicaoDa(subs, a.id).value
  {
    ProfessorNoMapaEhProfessorCom(profs, a.professorId);
    assert |SubstituicoesDe(subs, a.id)| == 1;
    SubstituicaoNoMapaEhSubstituicaoDa(subs, a.id);
    assert SubstituicoesDe(subs, a.id)[0] in SubstituicoesDe(subs, a.id);
  }

  /** Two substitutions for one absence: the view shows the later one, while the assignment
      run acts on the earlier one. */
  lemma DuasSubstituicoesDivergem(a: Ausencia, s1: Substituicao, s2: Substituicao)
    requires s1.ausenciaId == a.id && s2.ausenciaId == a.id && s1 != s2
    ensures SubstituicaoNoMapa([s1, s2], a.id) == Some(s2)
    ensures SubstituicaoDa([s1, s2], a.id) == Some(s1)
    ensures Completar(a, [], [], [], [s1, s2]).substituicao.value.substituicao != SubstituicaoDa([s1, s2], a.id).value
  {
    assert [s1, s2][..1] == [s1];
  }
}
