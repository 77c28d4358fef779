/** The substitute-assignment run behind `POST /api/gerar-escala`.

    The run reads the absences of the week, the teachers and the substitutions ONCE, and
    decides every absence against those snapshots: the teacher list is never re-read, so
    candidate filtering and sorting see the workloads as they were when the run started,
    and the workload written for a chosen teacher is their snapshot workload plus the
    absence's duration. Each absence's decision therefore depends on the snapshots alone
    (`Decidir`), and the run is the sequence of those decisions applied to the store in order. */
module Escala {
  import opened Wrappers
  import opened Tables
  import opened Schema
  import opened Storage
  import opened Sorting

  /** The policy cap on a teacher's workload, in hours. */
  const CargaMaxima: int := 60

  datatype Erro = SemanaEAnoObrigatorios

  /** The run's answer: substitutions assigned and substitutions left without a substitute. */
  datatype Contadores = Contadores(geradas: nat, falhas: nat)

  /** The parameter check `!semana || !ano`: a missing or zero week or year is refused. */
  predicate ParametrosPresentes(semana: Option<int>, ano: Option<int>)
  {
    semana.Some? && semana.value != 0 && ano.Some? && ano.value != 0
  }

  const MensagemSemCandidato: string :=
    "Nenhum professor disponível com a área de conhecimento necessária e carga horária adequada"

  function MensagemAtribuida(nome: string): string
  {
    "Professor " + nome + " escalado automaticamente"
  }

  /** The update written when no teacher qualifies. */
  function PatchSemCandidato(): SubstituicaoPatch
  {
    SubstituicaoPatch(None, None, Some(SemDisponibilidade), Some(Some(MensagemSemCandidato)))
  }

  /** The update written when `p` is chosen. */
  function PatchAtribuida(p: Professor): SubstituicaoPatch
  {
    SubstituicaoPatch(None, Some(Some(p.id)), Some(Atribuida), Some(Some(MensagemAtribuida(p.nome))))
  }

  // ---------------------------------------------------------------- one absence

  /** The first substitution of the absence in the snapshot. */
  function SubstituicaoDa(subs: seq<Substituicao>, ausenciaId: Id): Option<Substituicao>
  {
    Find(subs, (s: Substituicao) => s.ausenciaId == ausenciaId)
  }

  /** The first teacher with that id in the snapshot. */
  function ProfessorCom(profs: seq<Professor>, id: Id): Option<Professor>
  {
    Find(profs, (p: Professor) => p.id == id)
  }

  /** First filter: same knowledge area as the absent teacher, and not the absent teacher. */
  predicate MesmaArea(p: Professor, a: Ausencia, ausente: Professor)
  {
    p.id != a.professorId && p.areaConhecimento == ausente.areaConhecimento
  }

  /** Second filter: covering the absence keeps the (snapshot) workload within the cap. */
  predicate CabeNaCarga(p: Professor, a: Ausencia)
  {
    p.cargaHoraria + a.duracao <= CargaMaxima
  }

  predicate Elegivel(p: Professor, a: Ausencia, ausente: Professor)
  {
    MesmaArea(p, a, ausente) && CabeNaCarga(p, a)
  }

  /** The candidates for covering `a`: exactly the eligible teachers of the snapshot. */
  function Candidatos(profs: seq<Professor>, a: Ausencia, ausente: Professor): (r: seq<Professor>)
    ensures forall p :: p in r <==> p in profs && Elegivel(p, a, ausente)
  {
    var porArea := Filter(profs, (p: Professor) => MesmaArea(p, a, ausente));
    Filter(porArea, (p: Professor) => CabeNaCarga(p, a))
  }

  /** The head of the candidates sorted by ascending workload: a candidate of least workload. */
  function MenorCarga(cs: seq<Professor>): (r: Professor)
    requires cs != []
    ensures r in cs
    ensures forall p :: p in cs ==> r.cargaHoraria <= p.cargaHoraria
  {
    var ordenados := SortBy(cs, (p: Professor) => p.cargaHoraria);
    assert ordenados[0] in multiset(ordenados);
    assert forall p :: p in cs ==> p in multiset(ordenados);
    ordenados[0]
  }

  /** Whether the run acts on `a`: its substitution is found and pending, and the absent teacher is known. */
  predicate Processavel(a: Ausencia, profs: seq<Professor>, subs: seq<Substituicao>)
  {
    && SubstituicaoDa(subs, a.id).Some?
    && SubstituicaoDa(subs, a.id).value.status == Pendente
    && ProfessorCom(profs, a.professorId).Some?
  }

  /** What the run does for one absence. */
  datatype Decisao =
    | Ignorada
    | SemCandidato(substituicaoId: Id)
    | Atribuir(substituicaoId: Id, substituto: Professor, novaCarga: int)

  /** The decision for absence `a` against the snapshots `profs` and `subs`. */
  function Decidir(a: Ausencia, profs: seq<Professor>, subs: seq<Substituicao>): (d: Decisao)
    ensures d.Ignorada? <==> !Processavel(a, profs, subs)
    ensures !d.Ignorada? ==> d.substituicaoId == SubstituicaoDa(subs, a.id).value.id
    ensures d.SemCandidato? <==>
              Processavel(a, profs, subs) &&
              forall p :: p in profs ==> !Elegivel(p, a, ProfessorCom(profs, a.professorId).value)
    ensures d.Atribuir? ==>
              var ausente := ProfessorCom(profs, a.professorId).value;
              && d.substituto in profs
              && Elegivel(d.substituto, a, ausente)
              && d.novaCarga == d.substituto.cargaHoraria + a.duracao <= CargaMaxima
              && forall p :: p in profs && Elegivel(p, a, ausente) ==> d.substituto.cargaHoraria <= p.cargaHoraria
  {
    match SubstituicaoDa(subs, a.id)
    case None => Ignorada
    case Some(s) =>
      if s.status != Pendente then Ignorada
      else match ProfessorCom(profs, a.professorId)
        case None => Ignorada
        case Some(ausente) =>
          var cs := Candidatos(profs, a, ausente);
          if |cs| == 0 then
            assert forall p :: p in profs ==> !Elegivel(p, a, ausente);
            SemCandidato(s.id)
          else
            assert cs[0] in cs;
            var p := MenorCarga(cs);
            Atribuir(s.id, p, p.cargaHoraria + a.duracao)
  }

  /** The decision for an absence the run acts on, by whether it has candidates. */
  lemma DecidirProcessavel(a: Ausencia, profs: seq<Professor>, subs: seq<Substituicao>)
    requires Processavel(a, profs, subs)
    ensures var sid := SubstituicaoDa(subs, a.id).value.id;
            var cs := Candidatos(profs, a, ProfessorCom(profs, a.professorId).value);
            Decidir(a, profs, subs) ==
              if |cs| == 0 then SemCandidato(sid)
              else Atribuir(sid, MenorCarga(cs), MenorCarga(cs).cargaHoraria + a.duracao)
  {
  }

  // ---------------------------------------------------------------- the run as a function of the snapshots

  function Decisoes(semana: seq<Ausencia>, profs: seq<Professor>, subs: seq<Substituicao>): seq<Decisao>
  {
    seq(|semana|, i requires 0 <= i < |semana| => Decidir(semana[i], profs, subs))
  }

  /** The substitution update one decision writes. */
  function EfeitoSubstituicao(t: seq<Substituicao>, d: Decisao): seq<Substituicao>
  {
    match d
    case Ignorada => t
    case SemCandidato(sid) => PatchSubstituicoes(t, sid, PatchSemCandidato())
    case Atribuir(sid, p, _) => PatchSubstituicoes(t, sid, PatchAtribuida(p))
  }

  /** The workload write one decision makes. */
  function EfeitoCarga(t: seq<Professor>, d: Decisao): seq<Professor>
  {
    match d
    case Atribuir(_, p, n) => SetCargaHoraria(t, p.id, n)
    case _ => t
  }

  function AplicarSubstituicoes(t: seq<Substituicao>, ds: seq<Decisao>): seq<Substituicao>
    decreases |ds|
  {
    if ds == [] then t else EfeitoSubstituicao(AplicarSubstituicoes(t, ds[..|ds| - 1]), ds[|ds| - 1])
  }

  function AplicarCargas(t: seq<Professor>, ds: seq<Decisao>): seq<Professor>
    decreases |ds|
  {
    if ds == [] then t else EfeitoCarga(AplicarCargas(t, ds[..|ds| - 1]), ds[|ds| - 1])
  }

  function Geradas(ds: seq<Decisao>): nat
  {
    |Filter(ds, (d: Decisao) => d.Atribuir?)|
  }

  function Falhas(ds: seq<Decisao>): nat
  {
    |Filter(ds, (d: Decisao) => d.SemCandidato?)|
  }

  /** Counting one more decision. */
  lemma CountersStep(ds: seq<Decisao>, i: nat)
    requires i < |ds|
    ensures Geradas(ds[..i + 1]) == Geradas(ds[..i]) + (if ds[i].Atribuir? then 1 else 0)
    ensures Falhas(ds[..i + 1]) == Falhas(ds[..i]) + (if ds[i].SemCandidato? then 1 else 0)
  {
    assert ds[..i + 1] == ds[..i] + [ds[i]];
    FilterAppend(ds[..i], [ds[i]], (d: Decisao) => d.Atribuir?);
    FilterAppend(ds[..i], [ds[i]], (d: Decisao) => d.SemCandidato?);
  }

  lemma EfeitoCargaAtribuir(t: seq<Professor>, d: Decisao)
    requires d.Atribuir?
    ensures EfeitoCarga(t, d) == SetCargaHoraria(t, d.substituto.id, d.novaCarga)
  {
  }

  /** Applying one more decision. */
  lemma ApplyStep(subs: seq<Substituicao>, profs: seq<Professor>, ds: seq<Decisao>, i: nat)
    requires i < |ds|
    ensures AplicarSubstituicoes(subs, ds[..i + 1]) == EfeitoSubstituicao(AplicarSubstituicoes(subs, ds[..i]), ds[i])
    ensures AplicarCargas(profs, ds[..i + 1]) == EfeitoCarga(AplicarCargas(profs, ds[..i]), ds[i])
    ensures Geradas(ds[..i + 1]) == Geradas(ds[..i]) + (if ds[i].Atribuir? then 1 else 0)
    ensures Falhas(ds[..i + 1]) == Falhas(ds[..i]) + (if ds[i].SemCandidato? then 1 else 0)
  {
    assert ds[..i + 1][..i] == ds[..i];
    CountersStep(ds, i);
  }

  // ---------------------------------------------------------------- the run on the store

  /** One pass of the loop body: acts on absence `a` as the run does, against the snapshots
      `profs` and `subs` taken when the run started, and reports the decision it carried out. */
  method ProcessarAusencia(store: Store, a: Ausencia, profs: seq<Professor>, subs: seq<Substituicao>)
    returns (d: Decisao)
    requires store.Valid()
    modifies store
    ensures d == Decidir(a, profs, subs)
    ensures store.Valid()
    ensures store.substituicoes == EfeitoSubstituicao(old(store.substituicoes), d)
    ensures store.professores == EfeitoCarga(old(store.professores), d)
    ensures unchanged(store`ausencias, store`disciplinas, store`turmas, store`proximoId)
    ensures old(Pareadas(store.ausencias, store.substituicoes)) ==> Pareadas(store.ausencias, store.substituicoes)
  {
    ghost var cargas := store.professores;
    var substituicao := SubstituicaoDa(subs, a.id);
    if substituicao.None? || substituicao.value.status != Pendente {
      return Ignorada;
    }
    var professorAusente := ProfessorCom(profs, a.professorId);
    if professorAusente.None? {
      return Ignorada;
    }
    DecidirProcessavel(a, profs, subs);
    var candidatos := Filter(profs, (p: Professor) => MesmaArea(p, a, professorAusente.value));
    candidatos := Filter(candidatos, (p: Professor) => CabeNaCarga(p, a));
    assert candidatos == Candidatos(profs, a, professorAusente.value);
    if |candidatos| == 0 {
      var _ := store.UpdateSubstituicao(substituicao.value.id, PatchSemCandidato());
      d := SemCandidato(substituicao.value.id);
    } else {
      ghost var escolhido := MenorCarga(candidatos);
      candidatos := SortBy(candidatos, (p: Professor) => p.cargaHoraria);
      var substituto := candidatos[0];
      assert substituto == escolhido;
      var _ := store.UpdateSubstituicao(substituicao.value.id, PatchAtribuida(substituto));
      d := Atribuir(substituicao.value.id, substituto, substituto.cargaHoraria + a.duracao);
      assert store.professores == cargas;
      EfeitoCargaAtribuir(cargas, d);
      store.UpdateCargaHoraria(d.substituto.id, d.novaCarga);
    }
  }

  method GerarEscala(store: Store, semana: Option<int>, ano: Option<int>) returns (r: Result<Contadores, Erro>)
    requires store.Valid()
    modifies store
    ensures store.Valid()
    ensures !ParametrosPresentes(semana, ano) ==> r == Failure(SemanaEAnoObrigatorios) && unchanged(store)
    ensures ParametrosPresentes(semana, ano) ==>
              var ds := Decisoes(AusenciasDaSemana(old(store.ausencias), semana.value, ano.value),
                                 old(store.professores), old(store.substituicoes));
              && r == Success(Contadores(Geradas(ds), Falhas(ds)))
              && store.substituicoes == AplicarSubstituicoes(old(store.substituicoes), ds)
              && store.professores == AplicarCargas(old(store.professores), ds)
    ensures unchanged(store`ausencias, store`disciplinas, store`turmas, store`proximoId)
    ensures old(Pareadas(store.ausencias, store.substituicoes)) ==> Pareadas(store.ausencias, store.substituicoes)
  {
    if semana.None? || semana.value == 0 || ano.None? || ano.value == 0 {
      return Failure(SemanaEAnoObrigatorios);
    }
    var ausencias := store.GetAusenciasBySemana(semana.value, ano.value);
    var professores := store.professores;
    var substituicoes := store.substituicoes;
    ghost var ds := Decisoes(ausencias, professores, substituicoes);
    ghost var pareadas := Pareadas(store.ausencias, store.substituicoes);

    var geradas, falhas := 0, 0;
    assert ds[..0] == [];
    for i := 0 to |ausencias|
      invariant store.Valid()
      invariant store.substituicoes == AplicarSubstituicoes(substituicoes, ds[..i])
      invariant store.professores == AplicarCargas(professores, ds[..i])
      invariant geradas == Geradas(ds[..i]) && falhas == Falhas(ds[..i])
      invariant unchanged(store`ausencias, store`disciplinas, store`turmas, store`proximoId)
      invariant pareadas ==> Pareadas(store.ausencias, store.substituicoes)
    {
      ApplyStep(substituicoes, professores, ds, i);
      var d := ProcessarAusencia(store, ausencias[i], professores, substituicoes);
      if d.Atribuir? {
        geradas := geradas + 1;
      } else if d.SemCandidato? {
        falhas := falhas + 1;
      }
    }
    assert ds[..|ausencias|] == ds;
    r := Success(Contadores(geradas, falhas));
  }
}
