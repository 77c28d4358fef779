/** The data-access layer: five tables kept in memory, in place of the relational store.
    Every operation reads or rewrites the tables of one `Store` object. */
module Storage {
  import opened Wrappers
  import opened Tables
  import opened Schema

  // ---------------------------------------------------------------- keys

  function ProfessorId(p: Professor): Id { p.id }
  function DisciplinaId(d: Disciplina): Id { d.id }
  function TurmaId(t: Turma): Id { t.id }
  function AusenciaId(a: Ausencia): Id { a.id }
  function SubstituicaoId(s: Substituicao): Id { s.id }
  function SubstituicaoAusencia(s: Substituicao): Id { s.ausenciaId }

  // ---------------------------------------------------------------- table updates (UPDATE ... WHERE id = ...)

  /** Writes the absolute workload `carga` into every teacher row with that id. */
  function SetCargaHoraria(t: seq<Professor>, id: Id, carga: int): (r: seq<Professor>)
    ensures |r| == |t|
    ensures forall i :: 0 <= i < |t| ==>
              r[i].id == t[i].id && r[i].nome == t[i].nome && r[i].areaConhecimento == t[i].areaConhecimento
    ensures forall i :: 0 <= i < |t| && t[i].id == id ==> r[i].cargaHoraria == carga
    ensures forall i :: 0 <= i < |t| && t[i].id != id ==> r[i] == t[i]
  {
    seq(|t|, i requires 0 <= i < |t| => if t[i].id == id then t[i].(cargaHoraria := carga) else t[i])
  }

  function PatchProfessores(t: seq<Professor>, id: Id, u: ProfessorPatch): (r: seq<Professor>)
    ensures |r| == |t|
    ensures forall i :: 0 <= i < |t| ==> r[i] == if t[i].id == id then PatchProfessor(t[i], u) else t[i]
  {
    seq(|t|, i requires 0 <= i < |t| => if t[i].id == id then PatchProfessor(t[i], u) else t[i])
  }

  function PatchDisciplinas(t: seq<Disciplina>, id: Id, u: DisciplinaPatch): (r: seq<Disciplina>)
    ensures |r| == |t|
    ensures forall i :: 0 <= i < |t| ==> r[i] == if t[i].id == id then PatchDisciplina(t[i], u) else t[i]
  {
    seq(|t|, i requires 0 <= i < |t| => if t[i].id == id then PatchDisciplina(t[i], u) else t[i])
  }

  function PatchTurmas(t: seq<Turma>, id: Id, u: TurmaPatch): (r: seq<Turma>)
    ensures |r| == |t|
    ensures forall i :: 0 <= i < |t| ==> r[i] == if t[i].id == id then PatchTurma(t[i], u) else t[i]
  {
    seq(|t|, i requires 0 <= i < |t| => if t[i].id == id then PatchTurma(t[i], u) else t[i])
  }

  function PatchSubstituicoes(t: seq<Substituicao>, id: Id, u: SubstituicaoPatch): (r: seq<Substituicao>)
    ensures |r| == |t|
    ensures forall i :: 0 <= i < |t| ==> r[i] == if t[i].id == id then PatchSubstituicao(t[i], u) else t[i]
  {
    seq(|t|, i requires 0 <= i < |t| => if t[i].id == id then PatchSubstituicao(t[i], u) else t[i])
  }

  /** The first row with that id after an update: what `returning()` hands back. */
  function Returned<T>(t: seq<T>, key: T -> Id, id: Id): Option<T>
  {
    match Position(t, key, id)
    case Some(i) => Some(t[i])
    case None => None
  }

  // ---------------------------------------------------------------- queries

  /** The absences of one week of one year, in table order. */
  function AusenciasDaSemana(t: seq<Ausencia>, semana: int, ano: int): seq<Ausencia>
  {
    Filter(t, (a: Ausencia) => a.semana == semana && a.ano == ano)
  }

  /** The substitutions that refer to the absence `ausenciaId`. */
  function SubstituicoesDe(t: seq<Substituicao>, ausenciaId: Id): seq<Substituicao>
  {
    Filter(t, (s: Substituicao) => s.ausenciaId == ausenciaId)
  }

  /** The pairing the assignment run relies on: every absence has exactly one substitution,
      and every substitution belongs to an existing absence. */
  ghost predicate Pareadas(aus: seq<Ausencia>, subs: seq<Substituicao>)
  {
    && (forall a :: a in aus ==> |SubstituicoesDe(subs, a.id)| == 1)
    && (forall s :: s in subs ==> exists a :: a in aus && a.id == s.ausenciaId)
  }

  /** Every substitution of the table is coherent. */
  ghost predicate Coerentes(t: seq<Substituicao>)
  {
    forall s :: s in t ==> Coerente(s)
  }

  lemma SubstituicoesDeAppend(t: seq<Substituicao>, u: seq<Substituicao>, ausenciaId: Id)
    ensures SubstituicoesDe(t + u, ausenciaId) == SubstituicoesDe(t, ausenciaId) + SubstituicoesDe(u, ausenciaId)
  {
    FilterAppend(t, u, (s: Substituicao) => s.ausenciaId == ausenciaId);
  }

  /** Creating an absence together with its substitution keeps the pairing. */
  lemma CreatePreservesPareadas(aus: seq<Ausencia>, subs: seq<Substituicao>, na: Ausencia, ns: Substituicao)
    requires Pareadas(aus, subs)
    requires forall a :: a in aus ==> a.id != na.id
    requires ns.ausenciaId == na.id
    ensures Pareadas(aus + [na], subs + [ns])
  {
    forall a | a in aus + [na]
      ensures |SubstituicoesDe(subs + [ns], a.id)| == 1
    {
      CreateKeepsOne(aus, subs, na, ns, a);
    }
    forall s | s in subs + [ns]
      ensures exists a :: a in aus + [na] && a.id == s.ausenciaId
    {
      if s != ns {
        var b :| b in aus && b.id == s.ausenciaId;
        assert b in aus + [na];
      } else {
        assert na in aus + [na];
      }
    }
  }

  /** After the creation every absence, old or new, has exactly one substitution. */
  lemma CreateKeepsOne(aus: seq<Ausencia>, subs: seq<Substituicao>, na: Ausencia, ns: Substituicao, a: Ausencia)
    requires Pareadas(aus, subs)
    requires forall a :: a in aus ==> a.id != na.id
    requires ns.ausenciaId == na.id
    requires a in aus + [na]
    ensures |SubstituicoesDe(subs + [ns], a.id)| == 1
  {
    SubstituicoesDeAppend(subs, [ns], a.id);
    if a == na {
      NoSubstituicoesForFresh(aus, subs, na.id);
      assert SubstituicoesDe([ns], na.id) == [ns];
    } else {
      assert a in aus;
      assert SubstituicoesDe([ns], a.id) == [];
    }
  }

  /** An id that no absence has has no substitution either. */
  lemma NoSubstituicoesForFresh(aus: seq<Ausencia>, subs: seq<Substituicao>, id: Id)
    requires forall s :: s in subs ==> exists a :: a in aus && a.id == s.ausenciaId
    requires forall a :: a in aus ==> a.id != id
    ensures SubstituicoesDe(subs, id) == []
  {
    forall s | s in subs
      ensures s.ausenciaId != id
    {
      var b :| b in aus && b.id == s.ausenciaId;
    }
    FilterNone(subs, (s: Substituicao) => s.ausenciaId == id);
  }

  /** Deleting an absence and its substitutions keeps the pairing. */
  lemma {:induction false} DeletePreservesPareadas(aus: seq<Ausencia>, subs: seq<Substituicao>, id: Id)
    requires Pareadas(aus, subs)
    ensures Pareadas(Without(aus, AusenciaId, id), Without(subs, SubstituicaoAusencia, id))
  {
    var aus', subs' := Without(aus, AusenciaId, id), Without(subs, SubstituicaoAusencia, id);
    forall a | a in aus'
      ensures |SubstituicoesDe(subs', a.id)| == 1
    {
      SubstituicoesDeWithout(subs, id, a.id);
    }
    forall s | s in subs'
      ensures exists a :: a in aus' && a.id == s.ausenciaId
    {
      var a :| a in aus && a.id == s.ausenciaId;
      assert a in aus';
    }
  }

  /** Deleting an absence with its substitutions keeps both primary keys, and the deletion
      reports whether the absence existed. */
  lemma DeleteAusenciaKeeps(aus: seq<Ausencia>, subs: seq<Substituicao>, id: Id, bound: Id)
    requires KeysBelow(aus, AusenciaId, bound) && DistinctKeys(aus, AusenciaId)
    requires KeysBelow(subs, SubstituicaoId, bound) && DistinctKeys(subs, SubstituicaoId)
    ensures KeysBelow(Without(aus, AusenciaId, id), AusenciaId, bound) && DistinctKeys(Without(aus, AusenciaId, id), AusenciaId)
    ensures KeysBelow(Without(subs, SubstituicaoAusencia, id), SubstituicaoId, bound)
    ensures DistinctKeys(Without(subs, SubstituicaoAusencia, id), SubstituicaoId)
    ensures Position(aus, AusenciaId, id).Some? <==> exists a :: a in aus && a.id == id
    ensures Pareadas(aus, subs) ==> Pareadas(Without(aus, AusenciaId, id), Without(subs, SubstituicaoAusencia, id))
  {
    WithoutKeepsKeys(subs, SubstituicaoAusencia, id, SubstituicaoId, bound);
    WithoutKeepsKeys(aus, AusenciaId, id, AusenciaId, bound);
    PositionFound(aus, AusenciaId, id);
    if Pareadas(aus, subs) {
      DeletePreservesPareadas(aus, subs, id);
    }
  }

  lemma SubstituicoesDeWithout(t: seq<Substituicao>, id: Id, ausenciaId: Id)
    requires ausenciaId != id
    ensures SubstituicoesDe(Without(t, SubstituicaoAusencia, id), ausenciaId) == SubstituicoesDe(t, ausenciaId)
  {
    WithoutThenFilter(t, SubstituicaoAusencia, id, (s: Substituicao) => s.ausenciaId == ausenciaId);
  }

  /** A patch that leaves `ausenciaId` alone keeps the pairing. */
  lemma {:induction false} PatchPreservesPareadas(aus: seq<Ausencia>, subs: seq<Substituicao>, id: Id, u: SubstituicaoPatch)
    requires Pareadas(aus, subs)
    requires u.ausenciaId.None?
    ensures Pareadas(aus, PatchSubstituicoes(subs, id, u))
  {
    var subs' := PatchSubstituicoes(subs, id, u);
    assert forall i :: 0 <= i < |subs'| ==> subs'[i].ausenciaId == subs[i].ausenciaId;
    forall a | a in aus
      ensures |SubstituicoesDe(subs', a.id)| == 1
    {
      SubstituicoesDeSameColumn(subs', subs, a.id);
    }
    forall s | s in subs'
      ensures exists a :: a in aus && a.id == s.ausenciaId
    {
      var i :| 0 <= i < |subs'| && subs'[i] == s;
      assert subs[i] in subs;
      var b :| b in aus && b.id == subs[i].ausenciaId;
      assert b.id == s.ausenciaId;
    }
  }

  /** Patching substitutions keeps their primary key. */
  lemma PatchKeepsKeys(t: seq<Substituicao>, id: Id, u: SubstituicaoPatch, bound: Id)
    requires KeysBelow(t, SubstituicaoId, bound) && DistinctKeys(t, SubstituicaoId)
    ensures KeysBelow(PatchSubstituicoes(t, id, u), SubstituicaoId, bound)
    ensures DistinctKeys(PatchSubstituicoes(t, id, u), SubstituicaoId)
  {
    var r := PatchSubstituicoes(t, id, u);
    assert forall i :: 0 <= i < |t| ==> SubstituicaoId(r[i]) == SubstituicaoId(t[i]);
  }

  /** After a patch a row comes back exactly when the id existed. */
  lemma PatchFound(t: seq<Substituicao>, id: Id, u: SubstituicaoPatch)
    ensures Returned(PatchSubstituicoes(t, id, u), SubstituicaoId, id).None? <==> forall q :: q in t ==> q.id != id
  {
    var r := PatchSubstituicoes(t, id, u);
    if Returned(r, SubstituicaoId, id).None? {
      forall q | q in t
        ensures q.id != id
      {
        var i :| 0 <= i < |t| && t[i] == q;
        assert SubstituicaoId(r[i]) != id;
      }
    } else {
      var i := Position(r, SubstituicaoId, id).value;
      assert t[i] in t;
    }
  }

  lemma SubstituicoesDeSameColumn(t: seq<Substituicao>, u: seq<Substituicao>, ausenciaId: Id)
    requires |t| == |u|
    requires forall i :: 0 <= i < |t| ==> t[i].ausenciaId == u[i].ausenciaId
    ensures |SubstituicoesDe(t, ausenciaId)| == |SubstituicoesDe(u, ausenciaId)|
  {
    var p := (s: Substituicao) => s.ausenciaId == ausenciaId;
    FilterSameCount(t, u, p, p);
  }

  // ---------------------------------------------------------------- the store

  class Store {
    var professores: seq<Professor>
    var disciplinas: seq<Disciplina>
    var turmas: seq<Turma>
    var ausencias: seq<Ausencia>
    var substituicoes: seq<Substituicao>
    /** The id supply standing for the database's random UUIDs: every id handed out is below it. */
    var proximoId: Id

    /** Primary keys: ids are distinct within each table and were all handed out by the supply. */
    ghost predicate Valid()
      reads this
    {
      && KeysBelow(professores, ProfessorId, proximoId) && DistinctKeys(professores, ProfessorId)
      && KeysBelow(disciplinas, DisciplinaId, proximoId) && DistinctKeys(disciplinas, DisciplinaId)
      && KeysBelow(turmas, TurmaId, proximoId) && DistinctKeys(turmas, TurmaId)
      && KeysBelow(ausencias, AusenciaId, proximoId) && DistinctKeys(ausencias, AusenciaId)
      && KeysBelow(substituicoes, SubstituicaoId, proximoId) && DistinctKeys(substituicoes, SubstituicaoId)
    }

    constructor ()
      ensures Valid()
      ensures professores == [] && disciplinas == [] && turmas == [] && ausencias == [] && substituicoes == []
      ensures Pareadas(ausencias, substituicoes)
    {
      professores, disciplinas, turmas, ausencias, substituicoes := [], [], [], [], [];
      proximoId := 0;
    }

    /** Hands out an id no row has yet. */
    method FreshId() returns (id: Id)
      requires Valid()
      modifies this`proximoId
      ensures Valid()
      ensures id == old(proximoId) && proximoId == id + 1
    {
      id := proximoId;
      proximoId := proximoId + 1;
    }

    // -------------------------------------------------------------- teachers

    function GetProfessor(id: Id): (r: Option<Professor>)
      reads this
      ensures r.Some? ==> r.value in professores && r.value.id == id
      ensures r.None? <==> forall p :: p in professores ==> p.id != id
    {
      Returned(professores, ProfessorId, id)
    }

    method CreateProfessor(p: InsertProfessor) returns (r: Professor)
      requires Valid()
      modifies this
      ensures Valid()
      ensures r == NewProfessor(old(proximoId), p) && r.cargaHoraria == 0
      ensures forall q :: q in old(professores) ==> q.id != r.id
      ensures professores == old(professores) + [r]
      ensures unchanged(this`disciplinas, this`turmas, this`ausencias, this`substituicoes)
    {
      var id := FreshId();
      r := NewProfessor(id, p);
      professores := professores + [r];
    }

    method UpdateProfessor(id: Id, u: ProfessorPatch) returns (r: Option<Professor>)
      requires Valid()
      modifies this`professores
      ensures Valid()
      ensures professores == PatchProfessores(old(professores), id, u)
      ensures r == Returned(professores, ProfessorId, id)
      ensures r.None? <==> forall q :: q in old(professores) ==> q.id != id
    {
      professores := PatchProfessores(professores, id, u);
      r := Returned(professores, ProfessorId, id);
    }

    /** Deletes the teacher; absences and substitutions that refer to them are left as they are. */
    method DeleteProfessor(id: Id) returns (deleted: bool)
      requires Valid()
      modifies this`professores
      ensures Valid()
      ensures deleted <==> exists q :: q in old(professores) && q.id == id
      ensures professores == Without(old(professores), ProfessorId, id)
    {
      deleted := Position(professores, ProfessorId, id).Some?;
      WithoutKeepsKeys(professores, ProfessorId, id, ProfessorId, proximoId);
      professores := Without(professores, ProfessorId, id);
    }

    /** Writes an absolute workload; nothing else changes. */
    method UpdateCargaHoraria(id: Id, novaCarga: int)
      requires Valid()
      modifies this`professores
      ensures Valid()
      ensures professores == SetCargaHoraria(old(professores), id, novaCarga)
    {
      professores := SetCargaHoraria(professores, id, novaCarga);
    }

    // -------------------------------------------------------------- subjects

    function GetDisciplina(id: Id): (r: Option<Disciplina>)
      reads this
      ensures r.Some? ==> r.value in disciplinas && r.value.id == id
      ensures r.None? <==> forall d :: d in disciplinas ==> d.id != id
    {
      Returned(disciplinas, DisciplinaId, id)
    }

    method CreateDisciplina(d: InsertDisciplina) returns (r: Disciplina)
      requires Valid()
      modifies this
      ensures Valid()
      ensures r == Disciplina(old(proximoId), d.nome, d.areaConhecimento)
      ensures forall q :: q in old(disciplinas) ==> q.id != r.id
      ensures disciplinas == old(disciplinas) + [r]
      ensures unchanged(this`professores, this`turmas, this`ausencias, this`substituicoes)
    {
      var id := FreshId();
      r := Disciplina(id, d.nome, d.areaConhecimento);
      disciplinas := disciplinas + [r];
    }

    method UpdateDisciplina(id: Id, u: DisciplinaPatch) returns (r: Option<Disciplina>)
      requires Valid()
      modifies this`disciplinas
      ensures Valid()
      ensures disciplinas == PatchDisciplinas(old(disciplinas), id, u)
      ensures r == Returned(disciplinas, DisciplinaId, id)
      ensures r.None? <==> forall q :: q in old(disciplinas) ==> q.id != id
    {
      disciplinas := PatchDisciplinas(disciplinas, id, u);
      r := Returned(disciplinas, DisciplinaId, id);
    }

    method DeleteDisciplina(id: Id) returns (deleted: bool)
      requires Valid()
      modifies this`disciplinas
      ensures Valid()
      ensures deleted <==> exists q :: q in old(disciplinas) && q.id == id
      ensures disciplinas == Without(old(disciplinas), DisciplinaId, id)
    {
      deleted := Position(disciplinas, DisciplinaId, id).Some?;
      WithoutKeepsKeys(disciplinas, DisciplinaId, id, DisciplinaId, proximoId);
      disciplinas := Without(disciplinas, DisciplinaId, id);
    }

    // -------------------------------------------------------------- classes

    function GetTurma(id: Id): (r: Option<Turma>)
      reads this
      ensures r.Some? ==> r.value in turmas && r.value.id == id
      ensures r.None? <==> forall t :: t in turmas ==> t.id != id
    {
      Returned(turmas, TurmaId, id)
    }

    method CreateTurma(t: InsertTurma) returns (r: Turma)
      requires Valid()
      modifies this
      ensures Valid()
      ensures r == Turma(old(proximoId), t.nome)
      ensures forall q :: q in old(turmas) ==> q.id != r.id
      ensures turmas == old(turmas) + [r]
      ensures unchanged(this`professores, this`disciplinas, this`ausencias, this`substituicoes)
    {
      var id := FreshId();
      r := Turma(id, t.nome);
      turmas := turmas + [r];
    }

    method UpdateTurma(id: Id, u: TurmaPatch) returns (r: Option<Turma>)
      requires Valid()
      modifies this`turmas
      ensures Valid()
      ensures turmas == PatchTurmas(old(turmas), id, u)
      ensures r == Returned(turmas, TurmaId, id)
      ensures r.None? <==> forall q :: q in old(turmas) ==> q.id != id
    {
      turmas := PatchTurmas(turmas, id, u);
      r := Returned(turmas, TurmaId, id);
    }

    method DeleteTurma(id: Id) returns (deleted: bool)
      requires Valid()
      modifies this`turmas
      ensures Valid()
      ensures deleted <==> exists q :: q in old(turmas) && q.id == id
      ensures turmas == Without(old(turmas), TurmaId, id)
    {
      deleted := Position(turmas, TurmaId, id).Some?;
      WithoutKeepsKeys(turmas, TurmaId, id, TurmaId, proximoId);
      turmas := Without(turmas, TurmaId, id);
    }

    // -------------------------------------------------------------- absences

    function GetAusencia(id: Id): (r: Option<Ausencia>)
      reads this
      ensures r.Some? ==> r.value in ausencias && r.value.id == id
      ensures r.None? <==> forall a :: a in ausencias ==> a.id != id
    {
      Returned(ausencias, AusenciaId, id)
    }

    /** Exactly the absences of week `semana` of year `ano`. */
    function GetAusenciasBySemana(semana: int, ano: int): (r: seq<Ausencia>)
      reads this
      ensures forall a :: a in r <==> a in ausencias && a.semana == semana && a.ano == ano
    {
      AusenciasDaSemana(ausencias, semana, ano)
    }

    /** Inserts the absence, then a pending substitution for it. */
    method CreateAusencia(a: InsertAusencia) returns (r: Ausencia)
      requires Valid()
      modifies this
      ensures Valid()
      ensures r == NewAusencia(old(proximoId), a)
      ensures forall q :: q in old(ausencias) ==> q.id != r.id
      ensures ausencias == old(ausencias) + [r]
      ensures substituicoes == old(substituicoes) + [NewSubstituicao(old(proximoId) + 1, PendingFor(r.id))]
      ensures forall s :: s in old(substituicoes) ==> s.id != old(proximoId) + 1
      ensures unchanged(this`professores, this`disciplinas, this`turmas)
      ensures old(Pareadas(ausencias, substituicoes)) ==> Pareadas(ausencias, substituicoes)
      ensures old(Coerentes(substituicoes)) ==> Coerentes(substituicoes)
    {
      var id := FreshId();
      r := NewAusencia(id, a);
      ausencias := ausencias + [r];
      var s := CreateSubstituicao(PendingFor(r.id));
      if old(Pareadas(ausencias, substituicoes)) {
        CreatePreservesPareadas(old(ausencias), old(substituicoes), r, s);
      }
    }

    /** Deletes the substitutions of the absence first, then the absence itself. */
    method DeleteAusencia(id: Id) returns (deleted: bool)
      requires Valid()
      modifies this`ausencias, this`substituicoes
      ensures Valid()
      ensures substituicoes == Without(old(substituicoes), SubstituicaoAusencia, id)
      ensures ausencias == Without(old(ausencias), AusenciaId, id)
      ensures deleted <==> exists a :: a in old(ausencias) && a.id == id
      ensures old(Pareadas(ausencias, substituicoes)) ==> Pareadas(ausencias, substituicoes)
      ensures old(Coerentes(substituicoes)) ==> Coerentes(substituicoes)
    {
      DeleteAusenciaKeeps(ausencias, substituicoes, id, proximoId);
      substituicoes := Without(substituicoes, SubstituicaoAusencia, id);
      deleted := Position(ausencias, AusenciaId, id).Some?;
      ausencias := Without(ausencias, AusenciaId, id);
    }

    // -------------------------------------------------------------- substitutions

    function GetSubstituicao(id: Id): (r: Option<Substituicao>)
      reads this
      ensures r.Some? ==> r.value in substituicoes && r.value.id == id
      ensures r.None? <==> forall s :: s in substituicoes ==> s.id != id
    {
      Returned(substituicoes, SubstituicaoId, id)
    }

    /** The substitutions of the absences of one week: none when the week has no absence. */
    function GetSubstituicaoBySemana(semana: int, ano: int): (r: seq<Substituicao>)
      reads this
      ensures GetAusenciasBySemana(semana, ano) == [] ==> r == []
      ensures forall s :: s in r <==>
                s in substituicoes && exists a :: a in GetAusenciasBySemana(semana, ano) && a.id == s.ausenciaId
    {
      var daSemana := GetAusenciasBySemana(semana, ano);
      if |daSemana| == 0 then []
      else
        var ids := set a | a in daSemana :: a.id;
        Filter(substituicoes, (s: Substituicao) => s.ausenciaId in ids)
    }

    method CreateSubstituicao(s: InsertSubstituicao) returns (r: Substituicao)
      requires Valid()
      modifies this
      ensures Valid()
      ensures r == NewSubstituicao(old(proximoId), s)
      ensures forall q :: q in old(substituicoes) ==> q.id != r.id
      ensures substituicoes == old(substituicoes) + [r]
      ensures unchanged(this`professores, this`disciplinas, this`turmas, this`ausencias)
    {
      var id := FreshId();
      r := NewSubstituicao(id, s);
      substituicoes := substituicoes + [r];
    }

    /** Changes only the named fields of the substitution with that id; no row when the id is absent. */
    method UpdateSubstituicao(id: Id, u: SubstituicaoPatch) returns (r: Option<Substituicao>)
      requires Valid()
      modifies this`substituicoes
      ensures Valid()
      ensures substituicoes == PatchSubstituicoes(old(substituicoes), id, u)
      ensures r == Returned(substituicoes, SubstituicaoId, id)
      ensures r.None? <==> forall q :: q in old(substituicoes) ==> q.id != id
      ensures u.ausenciaId.None? && old(Pareadas(ausencias, substituicoes)) ==> Pareadas(ausencias, substituicoes)
    {
      ghost var antes := substituicoes;
      PatchKeepsKeys(substituicoes, id, u, proximoId);
      PatchFound(substituicoes, id, u);
      substituicoes := PatchSubstituicoes(substituicoes, id, u);
      r := Returned(substituicoes, SubstituicaoId, id);
      if u.ausenciaId.None? && Pareadas(ausencias, antes) {
        PatchPreservesPareadas(ausencias, antes, id, u);
        assert Pareadas(ausencias, substituicoes);
      }
    }

    method DeleteSubstituicao(id: Id) returns (deleted: bool)
      requires Valid()
      modifies this`substituicoes
      ensures Valid()
      ensures deleted <==> exists q :: q in old(substituicoes) && q.id == id
      ensures substituicoes == Without(old(substituicoes), SubstituicaoId, id)
    {
      deleted := Position(substituicoes, SubstituicaoId, id).Some?;
      WithoutKeepsKeys(substituicoes, SubstituicaoId, id, SubstituicaoId, proximoId);
      substituicoes := Without(substituicoes, SubstituicaoId, id);
    }
  }
}
