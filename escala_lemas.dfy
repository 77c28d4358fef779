/** What the assignment run writes, what it leaves alone, and what a second run over the
    same week does — stated about the run as a function of its snapshots (`Escala.Decisoes`,
    `Escala.AplicarSubstituicoes`, `Escala.AplicarCargas`), which `Escala.GerarEscala`
    is proved to carry out on the store. */
module EscalaLemas {
  import opened Wrappers
  import opened Tables
  import opened Schema
  import opened Storage
  import opened Escala

  // ---------------------------------------------------------------- workloads

  /** Decision `d` assigns teacher `id`. */
  predicate Atribui(d: Decisao, id: Id)
  {
    d.Atribuir? && d.substituto.id == id
  }

  /** The workload the last assignment of teacher `id` among `ds` writes, if there is one. */
  function UltimaCarga(ds: seq<Decisao>, id: Id): (r: Option<int>)
    decreases |ds|
    ensures r.None? <==> forall j :: 0 <= j < |ds| ==> !Atribui(ds[j], id)
    ensures r.Some? ==>
              exists j :: 0 <= j < |ds| && Atribui(ds[j], id) && ds[j].novaCarga == r.value &&
                          forall k :: j < k < |ds| ==> !Atribui(ds[k], id)
  {
    if ds == [] then None
    else if Atribui(ds[|ds| - 1], id) then Some(ds[|ds| - 1].novaCarga)
    else
      var r := UltimaCarga(ds[..|ds| - 1], id);
      assert forall j :: 0 <= j < |ds| - 1 ==> ds[..|ds| - 1][j] == ds[j];
      r
  }

  /** Applying decisions to the teachers: rows keep their place, id, name and area, and a
      teacher's workload is the one its last assignment wrote, or the old one if it had none. */
  lemma {:induction false} CargasFinais(profs: seq<Professor>, ds: seq<Decisao>)
    decreases |ds|
    ensures |AplicarCargas(profs, ds)| == |profs|
    ensures forall i :: 0 <= i < |profs| ==>
              var q := AplicarCargas(profs, ds)[i];
              && q.id == profs[i].id && q.nome == profs[i].nome && q.areaConhecimento == profs[i].areaConhecimento
              && q.cargaHoraria == UltimaCarga(ds, profs[i].id).GetOr(profs[i].cargaHoraria)
  {
    if ds != [] {
      CargasFinais(profs, ds[..|ds| - 1]);
    }
  }

  /** What the run's assignments look like: each assigns a teacher of the snapshot, and
      writes that teacher's snapshot workload plus the absence's duration, within the cap. */
  ghost predicate AtribuicoesNoLimite(semana: seq<Ausencia>, profs: seq<Professor>, ds: seq<Decisao>)
  {
    && |ds| == |semana|
    && forall j :: 0 <= j < |ds| && ds[j].Atribuir? ==>
         && ds[j].substituto in profs
         && ds[j].novaCarga == ds[j].substituto.cargaHoraria + semana[j].duracao
         && ds[j].novaCarga <= CargaMaxima
  }

  /** The `j`-th decision of the run is the decision for the `j`-th absence of the week. */
  lemma DecisaoDaSemana(semana: seq<Ausencia>, profs: seq<Professor>, subs: seq<Substituicao>, j: nat)
    requires j < |semana|
    ensures |Decisoes(semana, profs, subs)| == |semana|
    ensures Decisoes(semana, profs, subs)[j] == Decidir(semana[j], profs, subs)
  {
  }

  lemma DecisoesNoLimite(semana: seq<Ausencia>, profs: seq<Professor>, subs: seq<Substituicao>)
    ensures AtribuicoesNoLimite(semana, profs, Decisoes(semana, profs, subs))
  {
    forall j | 0 <= j < |semana|
      ensures var d := Decisoes(semana, profs, subs)[j];
              d.Atribuir? ==> d.substituto in profs && d.novaCarga == d.substituto.cargaHoraria + semana[j].duracao <= CargaMaxima
    {
      DecisaoDaSemana(semana, profs, subs, j);
    }
  }

  /** The lost update of the run: the workload a teacher ends with is their workload at the
      start of the run plus the duration of the LAST absence of the week they were chosen for,
      not the sum over every absence they were chosen for. */
  lemma CargaFinalSomaSoAUltimaAusencia(semana: seq<Ausencia>, profs: seq<Professor>, ds: seq<Decisao>, i: nat)
    requires AtribuicoesNoLimite(semana, profs, ds)
    requires DistinctKeys(profs, ProfessorId)
    requires i < |profs|
    ensures |AplicarCargas(profs, ds)| == |profs|
    ensures var q := AplicarCargas(profs, ds)[i];
            || (q == profs[i] && forall j :: 0 <= j < |ds| ==> !Atribui(ds[j], profs[i].id))
            || exists j :: 0 <= j < |ds| && Atribui(ds[j], profs[i].id)
                           && (forall k :: j < k < |ds| ==> !Atribui(ds[k], profs[i].id))
                           && q == profs[i].(cargaHoraria := profs[i].cargaHoraria + semana[j].duracao)
  {
    CargasFinais(profs, ds);
    var q := AplicarCargas(profs, ds)[i];
    match UltimaCarga(ds, profs[i].id)
    case None =>
      assert q == profs[i];
    case Some(n) =>
      var j :| 0 <= j < |ds| && Atribui(ds[j], profs[i].id) && ds[j].novaCarga == n &&
               forall k :: j < k < |ds| ==> !Atribui(ds[k], profs[i].id);
      var m :| 0 <= m < |profs| && profs[m] == ds[j].substituto;
      assert ProfessorId(profs[m]) == ProfessorId(profs[i]);
      assert q == profs[i].(cargaHoraria := profs[i].cargaHoraria + semana[j].duracao);
  }

  /** The cap holds after a run: when every teacher is within 60 hours at the start, every
      teacher is within 60 hours at the end. */
  lemma CargaFinalDentroDoLimite(semana: seq<Ausencia>, profs: seq<Professor>, ds: seq<Decisao>)
    requires AtribuicoesNoLimite(semana, profs, ds)
    requires forall p :: p in profs ==> p.cargaHoraria <= CargaMaxima
    ensures forall q :: q in AplicarCargas(profs, ds) ==> q.cargaHoraria <= CargaMaxima
  {
    CargasFinais(profs, ds);
    forall i | 0 <= i < |profs|
      ensures AplicarCargas(profs, ds)[i].cargaHoraria <= CargaMaxima
    {
      match UltimaCarga(ds, profs[i].id)
      case None =>
      case Some(n) =>
        var j :| 0 <= j < |ds| && Atribui(ds[j], profs[i].id) && ds[j].novaCarga == n;
    }
  }

  // ---------------------------------------------------------------- substitutions

  /** Decision `d` writes to the substitution with id `sid`. */
  predicate Resolve(d: Decisao, sid: Id)
  {
    !d.Ignorada? && d.substituicaoId == sid
  }

  /** The last decision among `ds` that writes to substitution `sid`, if there is one. */
  function UltimaDecisao(ds: seq<Decisao>, sid: Id): (r: Option<Decisao>)
    decreases |ds|
    ensures r.None? <==> forall j :: 0 <= j < |ds| ==> !Resolve(ds[j], sid)
    ensures r.Some? ==> Resolve(r.value, sid) && r.value in ds
  {
    if ds == [] then None
    else if Resolve(ds[|ds| - 1], sid) then Some(ds[|ds| - 1])
    else
      var r := UltimaDecisao(ds[..|ds| - 1], sid);
      assert forall j :: 0 <= j < |ds| - 1 ==> ds[..|ds| - 1][j] == ds[j];
      r
  }

  /** `s` carries what decision `d` writes. */
  predicate Registra(s: Substituicao, d: Decisao)
  {
    match d
    case Ignorada => false
    case SemCandidato(_) =>
      s.status == SemDisponibilidade && s.mensagem == Some(MensagemSemCandidato)
    case Atribuir(_, p, _) =>
      s.status == Atribuida && s.professorSubstitutoId == Some(p.id) && s.mensagem == Some(MensagemAtribuida(p.nome))
  }

  /** Applying decisions to the substitutions: rows keep their place, id and absence; a row no
      decision writes to is untouched, and any other row carries what its last decision wrote. */
  lemma {:induction false} SubstituicoesFinais(subs: seq<Substituicao>, ds: seq<Decisao>)
    decreases |ds|
    ensures |AplicarSubstituicoes(subs, ds)| == |subs|
    ensures forall i :: 0 <= i < |subs| ==>
              var s := AplicarSubstituicoes(subs, ds)[i];
              && s.id == subs[i].id && s.ausenciaId == subs[i].ausenciaId
              && (UltimaDecisao(ds, subs[i].id).None? ==> s == subs[i])
              && (UltimaDecisao(ds, subs[i].id).Some? ==> Registra(s, UltimaDecisao(ds, subs[i].id).value))
  {
    if ds != [] {
      SubstituicoesFinais(subs, ds[..|ds| - 1]);
    }
  }

  /** What the run's writes look like: every decision other than `Ignorada` writes to a
      substitution that was pending in the snapshot. */
  ghost predicate EscritasEmPendentes(subs: seq<Substituicao>, ds: seq<Decisao>)
  {
    forall j :: 0 <= j < |ds| && !ds[j].Ignorada? ==>
      exists k :: 0 <= k < |subs| && subs[k].status == Pendente && subs[k].id == ds[j].substituicaoId
  }

  /** A decision other than `Ignorada` writes to the substitution found for its absence,
      and that substitution is pending. */
  lemma DecisaoResolvePendente(a: Ausencia, profs: seq<Professor>, subs: seq<Substituicao>)
    requires !Decidir(a, profs, subs).Ignorada?
    ensures exists k :: 0 <= k < |subs| && subs[k].status == Pendente &&
                        subs[k].id == Decidir(a, profs, subs).substituicaoId
  {
    var k := FirstIndex(subs, (s: Substituicao) => s.ausenciaId == a.id).value;
    assert subs[k] == SubstituicaoDa(subs, a.id).value;
  }

  lemma DecisoesEscrevemEmPendentes(semana: seq<Ausencia>, profs: seq<Professor>, subs: seq<Substituicao>)
    ensures EscritasEmPendentes(subs, Decisoes(semana, profs, subs))
  {
    forall j | 0 <= j < |semana| && !Decisoes(semana, profs, subs)[j].Ignorada?
      ensures exists k :: 0 <= k < |subs| && subs[k].status == Pendente &&
                          subs[k].id == Decisoes(semana, profs, subs)[j].substituicaoId
    {
      DecisaoDaSemana(semana, profs, subs, j);
      DecisaoResolvePendente(semana[j], profs, subs);
    }
  }

  /** A run writes only to substitutions that are pending when it starts: an assigned or
      unavailable substitution is left exactly as it was. */
  lemma SoPendentesSaoAlteradas(subs: seq<Substituicao>, ds: seq<Decisao>)
    requires EscritasEmPendentes(subs, ds)
    requires DistinctKeys(subs, SubstituicaoId)
    ensures |AplicarSubstituicoes(subs, ds)| == |subs|
    ensures forall i :: 0 <= i < |subs| && subs[i].status != Pendente ==> AplicarSubstituicoes(subs, ds)[i] == subs[i]
  {
    SubstituicoesFinais(subs, ds);
    forall i | 0 <= i < |subs| && subs[i].status != Pendente
      ensures UltimaDecisao(ds, subs[i].id).None?
    {
      forall j | 0 <= j < |ds|
        ensures !Resolve(ds[j], subs[i].id)
      {
      }
    }
  }

  /** Every processable absence of the week has its substitution resolved by the run: every
      row carrying that substitution's id ends assigned or unavailable. */
  lemma PendentesSaoResolvidas(semana: seq<Ausencia>, profs: seq<Professor>, subs: seq<Substituicao>, j: nat)
    requires j < |semana|
    requires Processavel(semana[j], profs, subs)
    ensures var r := AplicarSubstituicoes(subs, Decisoes(semana, profs, subs));
            |r| == |subs| &&
            forall k :: 0 <= k < |subs| && subs[k].id == SubstituicaoDa(subs, semana[j].id).value.id ==>
              r[k].status == Atribuida || r[k].status == SemDisponibilidade
  {
    var ds := Decisoes(semana, profs, subs);
    DecisaoDaSemana(semana, profs, subs, j);
    ResolvidaAposEscrita(subs, ds, j);
  }

  /** A row that some decision writes to ends assigned or unavailable. */
  lemma ResolvidaAposEscrita(subs: seq<Substituicao>, ds: seq<Decisao>, j: nat)
    requires j < |ds| && !ds[j].Ignorada?
    ensures |AplicarSubstituicoes(subs, ds)| == |subs|
    ensures forall k :: 0 <= k < |subs| && subs[k].id == ds[j].substituicaoId ==>
              AplicarSubstituicoes(subs, ds)[k].status in {Atribuida, SemDisponibilidade}
  {
    SubstituicoesFinais(subs, ds);
    assert Resolve(ds[j], ds[j].substituicaoId);
  }

  // ---------------------------------------------------------------- coherence of the rows

  /** No two decisions write to the same substitution. */
  ghost predicate UmaEscritaPorSubstituicao(ds: seq<Decisao>)
  {
    forall i, j :: 0 <= i < j < |ds| && !ds[i].Ignorada? && !ds[j].Ignorada? ==>
      ds[i].substituicaoId != ds[j].substituicaoId
  }

  /** Absences with distinct ids find substitutions with distinct ids, so a run writes to each
      substitution at most once. */
  lemma DecisoesEscrevemUmaVez(semana: seq<Ausencia>, profs: seq<Professor>, subs: seq<Substituicao>)
    requires DistinctKeys(semana, AusenciaId)
    requires DistinctKeys(subs, SubstituicaoId)
    ensures UmaEscritaPorSubstituicao(Decisoes(semana, profs, subs))
  {
    var ds := Decisoes(semana, profs, subs);
    forall i, j | 0 <= i < j < |ds| && !ds[i].Ignorada? && !ds[j].Ignorada?
      ensures ds[i].substituicaoId != ds[j].substituicaoId
    {
      DecisaoDaSemana(semana, profs, subs, i);
      DecisaoDaSemana(semana, profs, subs, j);
      var ki := FirstIndex(subs, (s: Substituicao) => s.ausenciaId == semana[i].id).value;
      var kj := FirstIndex(subs, (s: Substituicao) => s.ausenciaId == semana[j].id).value;
      assert subs[ki].ausenciaId == semana[i].id && subs[kj].ausenciaId == semana[j].id;
      assert AusenciaId(semana[i]) != AusenciaId(semana[j]);
      assert ki != kj;
      if ki < kj {
        assert SubstituicaoId(subs[ki]) != SubstituicaoId(subs[kj]);
      } else {
        assert SubstituicaoId(subs[kj]) != SubstituicaoId(subs[ki]);
      }
    }
  }

  /** Decisions that each write to a different substitution, pending when the run starts, keep
      every substitution coherent: an assigned row names its substitute, an unavailable row was
      pending without one and keeps it that way. */
  lemma {:induction false} EscritasMantemCoerencia(subs: seq<Substituicao>, ds: seq<Decisao>)
    requires Coerentes(subs) && DistinctKeys(subs, SubstituicaoId)
    requires EscritasEmPendentes(subs, ds) && UmaEscritaPorSubstituicao(ds)
    decreases |ds|
    ensures Coerentes(AplicarSubstituicoes(subs, ds))
  {
    if ds != [] {
      var n := |ds| - 1;
      var antes := ds[..n];
      assert forall j :: 0 <= j < n ==> antes[j] == ds[j];
      EscritasMantemCoerencia(subs, antes);
      var t := AplicarSubstituicoes(subs, antes);
      var d := ds[n];
      var r := EfeitoSubstituicao(t, d);
      if d.SemCandidato? {
        SubstituicoesFinais(subs, antes);
        forall k | 0 <= k < |t| && t[k].id == d.substituicaoId
          ensures t[k].professorSubstitutoId.None?
        {
          forall j | 0 <= j < n
            ensures !Resolve(antes[j], subs[k].id)
          {
          }
          var m :| 0 <= m < |subs| && subs[m].status == Pendente && subs[m].id == d.substituicaoId;
          assert subs[k] in subs;
        }
      }
      forall s | s in r
        ensures Coerente(s)
      {
        var i :| 0 <= i < |r| && r[i] == s;
        assert t[i] in t;
      }
    }
  }

  /** A run keeps every substitution coherent, provided the absence and substitution ids are
      distinct, as the store guarantees. */
  lemma ExecucaoMantemCoerencia(aus: seq<Ausencia>, semana: int, ano: int, profs: seq<Professor>, subs: seq<Substituicao>)
    requires DistinctKeys(aus, AusenciaId) && DistinctKeys(subs, SubstituicaoId)
    requires Coerentes(subs)
    ensures Coerentes(AplicarSubstituicoes(subs, Decisoes(AusenciasDaSemana(aus, semana, ano), profs, subs)))
  {
    var daSemana := AusenciasDaSemana(aus, semana, ano);
    FilterKeepsDistinct(aus, (a: Ausencia) => a.semana == semana && a.ano == ano, AusenciaId);
    DecisoesEscrevemUmaVez(daSemana, profs, subs);
    DecisoesEscrevemEmPendentes(daSemana, profs, subs);
    EscritasMantemCoerencia(subs, Decisoes(daSemana, profs, subs));
  }

  // ---------------------------------------------------------------- a second run

  /** Lookups by absence find the same row in two tables with the same absence column. */
  lemma SubstituicaoDaMesmaColuna(t: seq<Substituicao>, u: seq<Substituicao>, ausenciaId: Id)
    requires |t| == |u|
    requires forall i :: 0 <= i < |t| ==> t[i].ausenciaId == u[i].ausenciaId
    ensures SubstituicaoDa(t, ausenciaId).None? <==> SubstituicaoDa(u, ausenciaId).None?
    ensures SubstituicaoDa(t, ausenciaId).Some? ==>
              exists k :: 0 <= k < |t| && t[k] == SubstituicaoDa(t, ausenciaId).value && u[k] == SubstituicaoDa(u, ausenciaId).value
  {
    FirstIndexSamePattern(t, u, (s: Substituicao) => s.ausenciaId == ausenciaId);
  }

  /** Lookups by id find a teacher in one table exactly when they do in a table with the same ids. */
  lemma ProfessorComMesmaColuna(t: seq<Professor>, u: seq<Professor>, id: Id)
    requires |t| == |u|
    requires forall i :: 0 <= i < |t| ==> t[i].id == u[i].id
    ensures ProfessorCom(t, id).None? <==> ProfessorCom(u, id).None?
  {
    FirstIndexSamePattern(t, u, (p: Professor) => p.id == id);
  }

  /** On the state a run left, the absence the run decided as `d` is skipped: if the run wrote
      to its substitution, that substitution is no longer pending; if it did not, nothing the
      run could act on has changed. */
  lemma {:induction false} DecisaoSeguinteIgnorada(a: Ausencia, profs: seq<Professor>, subs: seq<Substituicao>, ds: seq<Decisao>)
    requires Decidir(a, profs, subs) in ds
    ensures Decidir(a, AplicarCargas(profs, ds), AplicarSubstituicoes(subs, ds)) == Ignorada
  {
    var profs2, subs2 := AplicarCargas(profs, ds), AplicarSubstituicoes(subs, ds);
    CargasFinais(profs, ds);
    SubstituicoesFinais(subs, ds);
    SubstituicaoDaMesmaColuna(subs, subs2, a.id);
    ProfessorComMesmaColuna(profs, profs2, a.professorId);
    if SubstituicaoDa(subs2, a.id).Some? && SubstituicaoDa(subs2, a.id).value.status == Pendente {
      var k :| 0 <= k < |subs| && subs[k] == SubstituicaoDa(subs, a.id).value && subs2[k] == SubstituicaoDa(subs2, a.id).value;
      assert UltimaDecisao(ds, subs[k].id).None?;
    }
  }

  /** Running the assignment again for the same week, on the state the first run left,
      decides nothing: every absence is skipped, and both counters are zero. */
  lemma SegundaExecucaoNadaFaz(semana: seq<Ausencia>, profs: seq<Professor>, subs: seq<Substituicao>)
    ensures var ds := Decisoes(semana, profs, subs);
            var ds2 := Decisoes(semana, AplicarCargas(profs, ds), AplicarSubstituicoes(subs, ds));
            && (forall j :: 0 <= j < |ds2| ==> ds2[j] == Ignorada)
            && Geradas(ds2) == 0 && Falhas(ds2) == 0
  {
    var ds := Decisoes(semana, profs, subs);
    var profs2, subs2 := AplicarCargas(profs, ds), AplicarSubstituicoes(subs, ds);
    var ds2 := Decisoes(semana, profs2, subs2);
    forall j | 0 <= j < |ds2|
      ensures ds2[j] == Ignorada
    {
      DecisaoDaSemana(semana, profs, subs, j);
      DecisaoDaSemana(semana, profs2, subs2, j);
      DecisaoSeguinteIgnorada(semana[j], profs, subs, ds);
    }
    FilterNone(ds2, (d: Decisao) => d.Atribuir?);
    FilterNone(ds2, (d: Decisao) => d.SemCandidato?);
  }

  // ---------------------------------------------------------------- the counters

  /** The absences of the week that the run acts on. */
  function Processaveis(semana: seq<Ausencia>, profs: seq<Professor>, subs: seq<Substituicao>): seq<Ausencia>
  {
    Filter(semana, (a: Ausencia) => Processavel(a, profs, subs))
  }

  /** Counting decisions made one per row: assigned plus unavailable is the number of rows
      that are not skipped. */
  lemma {:induction false} ContagemDeDecisoes(semana: seq<Ausencia>, ds: seq<Decisao>, acao: Ausencia -> bool)
    requires |ds| == |semana|
    requires forall j :: 0 <= j < |ds| ==> (ds[j].Ignorada? <==> !acao(semana[j]))
    decreases |ds|
    ensures Geradas(ds) + Falhas(ds) == |Filter(semana, acao)|
  {
    if ds != [] {
      var n := |ds| - 1;
      assert semana == semana[..n] + [semana[n]];
      assert ds[..n + 1] == ds;
      FilterAppend(semana[..n], [semana[n]], acao);
      CountersStep(ds, n);
      ContagemDeDecisoes(semana[..n], ds[..n], acao);
      var ultima := Filter([semana[n]], acao);
      if acao(semana[n]) {
        assert semana[n] in ultima;
      }
    }
  }

  /** The two counters together count the absences the run acts on: each such absence is
      either assigned or left unavailable, and every other absence is skipped uncounted. */
  lemma ContadoresContamProcessaveis(semana: seq<Ausencia>, profs: seq<Professor>, subs: seq<Substituicao>)
    ensures var ds := Decisoes(semana, profs, subs);
            Geradas(ds) + Falhas(ds) == |Processaveis(semana, profs, subs)| <= |semana|
  {
    var ds := Decisoes(semana, profs, subs);
    forall j | 0 <= j < |ds|
      ensures ds[j].Ignorada? <==> !Processavel(semana[j], profs, subs)
    {
      DecisaoDaSemana(semana, profs, subs, j);
    }
    ContagemDeDecisoes(semana, ds, (a: Ausencia) => Processavel(a, profs, subs));
  }

  // ---------------------------------------------------------------- worked cases

  /** Two teachers of the absent teacher's area with workloads 10 and 30, and an absence of
      two hours: the run assigns the teacher with 10 hours, whose workload becomes 12. */
  lemma EscolheMenorCarga(ausente: Professor, a: Professor, b: Professor, falta: Ausencia, pendente: Substituicao)
    requires a.id != ausente.id && b.id != ausente.id && a.id != b.id
    requires a.areaConhecimento == ausente.areaConhecimento == b.areaConhecimento
    requires a.cargaHoraria == 10 && b.cargaHoraria == 30
    requires falta.professorId == ausente.id && falta.duracao == 2
    requires pendente.ausenciaId == falta.id && pendente.status == Pendente
    ensures var profs := [ausente, a, b];
            var d := Decidir(falta, profs, [pendente]);
            && d == Atribuir(pendente.id, a, 12)
            && AplicarCargas(profs, [d]) == [ausente, a.(cargaHoraria := 12), b]
            && AplicarSubstituicoes([pendente], [d]) ==
                 [pendente.(professorSubstitutoId := Some(a.id), status := Atribuida, mensagem := Some(MensagemAtribuida(a.nome)))]
  {
    MenorCargaEntreDois(ausente, a, b, falta, pendente);
    EfeitosDaAtribuicao(ausente, a, b, pendente);
  }

  /** Carrying out that assignment writes 12 hours into the chosen teacher's row only and
      marks the substitution assigned to that teacher. */
  lemma EfeitosDaAtribuicao(ausente: Professor, a: Professor, b: Professor, pendente: Substituicao)
    requires a.id != ausente.id && b.id != ausente.id && a.id != b.id
    ensures var d := Atribuir(pendente.id, a, 12);
            && AplicarCargas([ausente, a, b], [d]) == [ausente, a.(cargaHoraria := 12), b]
            && AplicarSubstituicoes([pendente], [d]) ==
                 [pendente.(professorSubstitutoId := Some(a.id), status := Atribuida, mensagem := Some(MensagemAtribuida(a.nome)))]
  {
    var profs := [ausente, a, b];
    var d := Atribuir(pendente.id, a, 12);
    UmaDecisao(profs, [pendente], d);
    var cargas := SetCargaHoraria(profs, a.id, 12);
    assert cargas[0] == ausente && cargas[1] == a.(cargaHoraria := 12) && cargas[2] == b;
    var r := PatchSubstituicoes([pendente], pendente.id, PatchAtribuida(a));
    assert r[0] == pendente.(professorSubstitutoId := Some(a.id), status := Atribuida, mensagem := Some(MensagemAtribuida(a.nome)));
  }

  lemma MenorCargaEntreDois(ausente: Professor, a: Professor, b: Professor, falta: Ausencia, pendente: Substituicao)
    requires a.id != ausente.id && b.id != ausente.id && a.id != b.id
    requires a.areaConhecimento == ausente.areaConhecimento == b.areaConhecimento
    requires a.cargaHoraria == 10 && b.cargaHoraria == 30
    requires falta.professorId == ausente.id && falta.duracao == 2
    requires pendente.ausenciaId == falta.id && pendente.status == Pendente
    ensures Decidir(falta, [ausente, a, b], [pendente]) == Atribuir(pendente.id, a, 12)
  {
    var profs := [ausente, a, b];
    assert SubstituicaoDa([pendente], falta.id) == Some(pendente);
    assert ProfessorCom(profs, falta.professorId) == Some(ausente);
    assert Elegivel(a, falta, ausente);
  }

  /** A run of one decision is that decision's effect. */
  lemma UmaDecisao(profs: seq<Professor>, subs: seq<Substituicao>, d: Decisao)
    ensures AplicarCargas(profs, [d]) == EfeitoCarga(profs, d)
    ensures AplicarSubstituicoes(subs, [d]) == EfeitoSubstituicao(subs, d)
  {
    assert [d][..0] == [];
  }

  /** When every teacher of the area would exceed 60 hours, the substitution becomes
      unavailable and no workload changes. */
  lemma SemCandidatoNaoAlteraCargas(profs: seq<Professor>, falta: Ausencia, subs: seq<Substituicao>)
    requires Processavel(falta, profs, subs)
    requires forall p :: p in profs ==> p.cargaHoraria + falta.duracao > CargaMaxima
    ensures var d := Decidir(falta, profs, subs);
            && d == SemCandidato(SubstituicaoDa(subs, falta.id).value.id)
            && AplicarCargas(profs, [d]) == profs
            && AplicarSubstituicoes(subs, [d]) == PatchSubstituicoes(subs, d.substituicaoId, PatchSemCandidato())
  {
    UmaDecisao(profs, subs, Decidir(falta, profs, subs));
  }
}
