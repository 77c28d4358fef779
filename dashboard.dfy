/** The dashboard figures behind `GET /api/dashboard/stats`: substitutions by status, the five
    teachers assigned most often, and absences per week for the last eight weeks on record. */
module Dashboard {
  import opened Wrappers
  import opened Tables
  import opened Schema
  import opened Escala
  import opened Sorting

  // ---------------------------------------------------------------- substitutions by status

  /** How many substitutions have status `st`. */
  function ContarStatus(subs: seq<Substituicao>, st: Status): nat
  {
    |Filter(subs, (s: Substituicao) => s.status == st)|
  }

  /** Every substitution is counted under exactly one of the three statuses. */
  lemma {:induction false} StatusParticionam(subs: seq<Substituicao>)
    ensures ContarStatus(subs, Atribuida) + ContarStatus(subs, SemDisponibilidade) + ContarStatus(subs, Pendente) == |subs|
  {
    if subs != [] {
      StatusParticionam(subs[1..]);
    }
  }

  // ---------------------------------------------------------------- most assigned teachers

  /** One entry of the `Map` from teacher id to name and number of assignments. */
  datatype Entrada = Entrada(id: Id, nome: string, total: nat)

  /** What the dashboard shows for one teacher (the `Map`'s value). */
  datatype Escalado = Escalado(nome: string, total: nat)

  function EntradaId(e: Entrada): Id { e.id }

  /** The substitution is assigned, with teacher `id` as its substitute. */
  predicate AtribuidaA(s: Substituicao, id: Id)
  {
    s.status == Atribuida && s.professorSubstitutoId == Some(id)
  }

  /** How many substitutions are assigned to teacher `id`. */
  function Vezes(subs: seq<Substituicao>, id: Id): nat
    decreases |subs|
  {
    if subs == [] then 0
    else Vezes(subs[..|subs| - 1], id) + (if AtribuidaA(subs[|subs| - 1], id) then 1 else 0)
  }

  /** The entry names a teacher that exists, under that teacher's name. */
  predicate Nomeia(e: Entrada, profs: seq<Professor>)
  {
    ProfessorCom(profs, e.id).Some? && ProfessorCom(profs, e.id).value.nome == e.nome
  }

  /** One pass of the counting loop: `contagem.set(id, { nome, total: atual.total + 1 })`, which
      keeps an existing key where it is and appends a new one. */
  function Registrar(c: seq<Entrada>, s: Substituicao, profs: seq<Professor>): seq<Entrada>
  {
    if s.status == Atribuida && s.professorSubstitutoId.Some? then
      match ProfessorCom(profs, s.professorSubstitutoId.value)
      case None => c
      case Some(p) =>
        match Position(c, EntradaId, p.id)
        case Some(k) => c[k := Entrada(p.id, p.nome, c[k].total + 1)]
        case None => c + [Entrada(p.id, p.nome, 1)]
    else c
  }

  /** The `Map` after the counting loop, in insertion order. */
  function Contagem(subs: seq<Substituicao>, profs: seq<Professor>): seq<Entrada>
    decreases |subs|
  {
    if subs == [] then [] else Registrar(Contagem(subs[..|subs| - 1], profs), subs[|subs| - 1], profs)
  }

  /** `c` counts `subs` right: one entry per existing teacher with at least one assigned
      substitution and none for any other id, each entry carrying that teacher's name and
      number of assigned substitutions. */
  ghost predicate ContagemCerta(c: seq<Entrada>, subs: seq<Substituicao>, profs: seq<Professor>)
  {
    && DistinctKeys(c, EntradaId)
    && (forall k :: 0 <= k < |c| ==> c[k].total == Vezes(subs, c[k].id) > 0 && Nomeia(c[k], profs))
    && (forall id: Id :: Vezes(subs, id) > 0 && ProfessorCom(profs, id).Some? ==> exists k :: 0 <= k < |c| && c[k].id == id)
  }

  /** The counting loop counts right. */
  lemma {:induction false} ContagemCorreta(subs: seq<Substituicao>, profs: seq<Professor>)
    decreases |subs|
    ensures ContagemCerta(Contagem(subs, profs), subs, profs)
  {
    if subs != [] {
      var n := |subs| - 1;
      ContagemCorreta(subs[..n], profs);
      RegistrarCorreto(Contagem(subs[..n], profs), subs, profs);
    }
  }

  /** One pass of the counting loop keeps the counting right. */
  lemma RegistrarCorreto(antes: seq<Entrada>, subs: seq<Substituicao>, profs: seq<Professor>)
    requires subs != [] && ContagemCerta(antes, subs[..|subs| - 1], profs)
    ensures ContagemCerta(Registrar(antes, subs[|subs| - 1], profs), subs, profs)
  {
    var s := subs[|subs| - 1];
    if s.status == Atribuida && s.professorSubstitutoId.Some? && ProfessorCom(profs, s.professorSubstitutoId.value).Some? {
      var p := ProfessorCom(profs, s.professorSubstitutoId.value).value;
      match Position(antes, EntradaId, p.id)
      case Some(k) => SomarEntrada(antes, k, p, subs, profs);
      case None => NovaEntrada(antes, p, subs, profs);
    } else {
      SemEntrada(antes, subs, profs);
    }
  }

  /** A substitution that counts towards no existing teacher leaves the map as it is. */
  lemma SemEntrada(antes: seq<Entrada>, subs: seq<Substituicao>, profs: seq<Professor>)
    requires subs != [] && ContagemCerta(antes, subs[..|subs| - 1], profs)
    requires var s := subs[|subs| - 1];
             !(s.status == Atribuida && s.professorSubstitutoId.Some? && ProfessorCom(profs, s.professorSubstitutoId.value).Some?)
    ensures ContagemCerta(antes, subs, profs)
  {
    var s := subs[|subs| - 1];
    forall id: Id | ProfessorCom(profs, id).Some?
      ensures Vezes(subs, id) == Vezes(subs[..|subs| - 1], id)
    {
      assert !AtribuidaA(s, id);
    }
  }

  /** A counted substitution of a teacher already in the map adds one to that teacher's entry. */
  lemma SomarEntrada(antes: seq<Entrada>, k: nat, p: Professor, subs: seq<Substituicao>, profs: seq<Professor>)
    requires subs != [] && ContagemCerta(antes, subs[..|subs| - 1], profs)
    requires var s := subs[|subs| - 1];
             s.status == Atribuida && s.professorSubstitutoId.Some? && ProfessorCom(profs, s.professorSubstitutoId.value) == Some(p)
    requires k < |antes| && antes[k].id == p.id
    ensures ContagemCerta(antes[k := Entrada(p.id, p.nome, antes[k].total + 1)], subs, profs)
  {
    var e := Entrada(p.id, p.nome, antes[k].total + 1);
    var c := antes[k := e];
    UpdateKeepsKeys(antes, k, e, EntradaId);
    forall i | 0 <= i < |c|
      ensures c[i].total == Vezes(subs, c[i].id) > 0 && Nomeia(c[i], profs)
    {
      if i != k {
        assert EntradaId(antes[i]) != EntradaId(antes[k]);
        assert c[i] == antes[i];
      }
    }
    forall id: Id | Vezes(subs, id) > 0 && ProfessorCom(profs, id).Some?
      ensures exists j :: 0 <= j < |c| && c[j].id == id
    {
      if id != p.id {
        var j :| 0 <= j < |antes| && antes[j].id == id;
        assert c[j].id == id;
      } else {
        assert c[k].id == id;
      }
    }
  }

  /** A counted substitution of a teacher not yet in the map appends an entry with total 1. */
  lemma NovaEntrada(antes: seq<Entrada>, p: Professor, subs: seq<Substituicao>, profs: seq<Professor>)
    requires subs != [] && ContagemCerta(antes, subs[..|subs| - 1], profs)
    requires var s := subs[|subs| - 1];
             s.status == Atribuida && s.professorSubstitutoId.Some? && ProfessorCom(profs, s.professorSubstitutoId.value) == Some(p)
    requires forall i :: 0 <= i < |antes| ==> antes[i].id != p.id
    ensures ContagemCerta(antes + [Entrada(p.id, p.nome, 1)], subs, profs)
  {
    var e := Entrada(p.id, p.nome, 1);
    var c := antes + [e];
    AppendKeepsKeys(antes, e, EntradaId);
    forall i | 0 <= i < |c|
      ensures c[i].total == Vezes(subs, c[i].id) > 0 && Nomeia(c[i], profs)
    {
      if i < |antes| {
        assert c[i] == antes[i];
      }
    }
    forall id: Id | Vezes(subs, id) > 0 && ProfessorCom(profs, id).Some?
      ensures exists j :: 0 <= j < |c| && c[j].id == id
    {
      if id != p.id {
        var j :| 0 <= j < |antes| && antes[j].id == id;
        assert c[j].id == id;
      } else {
        assert c[|antes|].id == id;
      }
    }
  }

  /** The counting loop of the handler, proved to build `Contagem`. */
  method ContarEscalados(subs: seq<Substituicao>, profs: seq<Professor>) returns (contagem: seq<Entrada>)
    ensures contagem == Contagem(subs, profs)
  {
    contagem := [];
    for i := 0 to |subs|
      invariant contagem == Contagem(subs[..i], profs)
    {
      var sub := subs[i];
      assert subs[..i + 1][..i] == subs[..i];
      if sub.status == Atribuida && sub.professorSubstitutoId.Some? {
        var professor := ProfessorCom(profs, sub.professorSubstitutoId.value);
        if professor.Some? {
          var atual := Position(contagem, EntradaId, professor.value.id);
          if atual.Some? {
            contagem := contagem[atual.value := Entrada(professor.value.id, professor.value.nome, contagem[atual.value].total + 1)];
          } else {
            contagem := contagem + [Entrada(professor.value.id, professor.value.nome, 1)];
          }
        }
      }
    }
    assert subs[..|subs|] == subs;
  }

  function Valor(e: Entrada): Escalado { Escalado(e.nome, e.total) }

  /** The entries sorted by decreasing total, then the first five. */
  function MaisEscalados(c: seq<Entrada>): (r: seq<Entrada>)
    ensures |r| == if |c| < 5 then |c| else 5
    ensures forall i, j :: 0 <= i < j < |r| ==> r[i].total >= r[j].total
    ensures multiset(r) <= multiset(c)
    ensures forall e :: e in multiset(c) - multiset(r) ==> forall x :: x in r ==> e.total <= x.total
  {
    var ordenados := SortBy(c, (e: Entrada) => -(e.total as int));
    var n := if |c| < 5 then |c| else 5;
    TakeFirst(ordenados, (e: Entrada) => -(e.total as int), n);
    ordenados[..n]
  }

  /** Every teacher on the list exists, is shown under their own name and with the number of
      substitutions assigned to them, which is at least one; no two entries share a teacher. */
  lemma MaisEscaladosContamAtribuidas(subs: seq<Substituicao>, profs: seq<Professor>)
    ensures var top := MaisEscalados(Contagem(subs, profs));
            && (forall i :: 0 <= i < |top| ==> top[i].total == Vezes(subs, top[i].id) > 0 && Nomeia(top[i], profs))
            && DistinctKeys(top, EntradaId)
  {
    var c := Contagem(subs, profs);
    var top := MaisEscalados(c);
    ContagemCorreta(subs, profs);
    SubMultisetKeepsKeys(top, c, EntradaId);
    forall i | 0 <= i < |top|
      ensures top[i].total == Vezes(subs, top[i].id) > 0 && Nomeia(top[i], profs)
    {
      assert top[i] in multiset(top);
      assert top[i] in c;
    }
  }

  // ---------------------------------------------------------------- absences per week

  /** One point of the timeline: a week number and how many absences fall in it. */
  datatype PontoSemana = PontoSemana(semana: int, total: nat)

  /** How many absences fall in week `semana`, whatever their year. */
  function NaSemana(aus: seq<Ausencia>, semana: int): nat
    decreases |aus|
  {
    if aus == [] then 0
    else NaSemana(aus[..|aus| - 1], semana) + (if aus[|aus| - 1].semana == semana then 1 else 0)
  }

  /** One pass of the timeline loop: the `Map` keyed by the label of the week number. */
  function Anotar(c: seq<PontoSemana>, a: Ausencia): seq<PontoSemana>
  {
    match FirstIndex(c, (p: PontoSemana) => p.semana == a.semana)
    case Some(k) => c[k := PontoSemana(a.semana, c[k].total + 1)]
    case None => c + [PontoSemana(a.semana, 1)]
  }

  /** The `Map` after the timeline loop, in insertion order. */
  function PorSemana(aus: seq<Ausencia>): seq<PontoSemana>
    decreases |aus|
  {
    if aus == [] then [] else Anotar(PorSemana(aus[..|aus| - 1]), aus[|aus| - 1])
  }

  /** `c` counts `aus` by week right: one point per week number that has an absence, whatever
      its year, and none for any other week, each carrying the number of absences in that week. */
  ghost predicate TimelineCerta(c: seq<PontoSemana>, aus: seq<Ausencia>)
  {
    && (forall i, j :: 0 <= i < j < |c| ==> c[i].semana != c[j].semana)
    && (forall k :: 0 <= k < |c| ==> c[k].total == NaSemana(aus, c[k].semana) > 0)
    && (forall semana: int :: NaSemana(aus, semana) > 0 ==> exists k :: 0 <= k < |c| && c[k].semana == semana)
  }

  /** The timeline loop counts right. */
  lemma {:induction false} PorSemanaCorreta(aus: seq<Ausencia>)
    decreases |aus|
    ensures TimelineCerta(PorSemana(aus), aus)
  {
    if aus != [] {
      var n := |aus| - 1;
      PorSemanaCorreta(aus[..n]);
      AnotarCorreto(PorSemana(aus[..n]), aus);
    }
  }

  /** One pass of the timeline loop keeps the counting right. */
  lemma AnotarCorreto(antes: seq<PontoSemana>, aus: seq<Ausencia>)
    requires aus != [] && TimelineCerta(antes, aus[..|aus| - 1])
    ensures TimelineCerta(Anotar(antes, aus[|aus| - 1]), aus)
  {
    var a := aus[|aus| - 1];
    match FirstIndex(antes, (p: PontoSemana) => p.semana == a.semana)
    case Some(k) => SomarSemana(antes, k, aus);
    case None => NovaSemana(antes, aus);
  }

  /** An absence in a week already on the timeline adds one to that week's point. */
  lemma SomarSemana(antes: seq<PontoSemana>, k: nat, aus: seq<Ausencia>)
    requires aus != [] && TimelineCerta(antes, aus[..|aus| - 1])
    requires k < |antes| && antes[k].semana == aus[|aus| - 1].semana
    ensures TimelineCerta(antes[k := PontoSemana(antes[k].semana, antes[k].total + 1)], aus)
  {
    var c := antes[k := PontoSemana(antes[k].semana, antes[k].total + 1)];
    forall i, j | 0 <= i < j < |c|
      ensures c[i].semana != c[j].semana
    {
      assert c[i].semana == antes[i].semana && c[j].semana == antes[j].semana;
    }
    forall i | 0 <= i < |c|
      ensures c[i].total == NaSemana(aus, c[i].semana) > 0
    {
      if i != k {
        assert c[i] == antes[i];
        assert antes[i].semana != antes[k].semana;
      }
    }
    forall semana: int | NaSemana(aus, semana) > 0
      ensures exists j :: 0 <= j < |c| && c[j].semana == semana
    {
      if semana != antes[k].semana {
        assert NaSemana(aus[..|aus| - 1], semana) > 0;
        var j :| 0 <= j < |antes| && antes[j].semana == semana;
        assert c[j].semana == semana;
      } else {
        assert c[k].semana == semana;
      }
    }
  }

  /** An absence in a week not yet on the timeline appends a point with total 1. */
  lemma NovaSemana(antes: seq<PontoSemana>, aus: seq<Ausencia>)
    requires aus != [] && TimelineCerta(antes, aus[..|aus| - 1])
    requires forall i :: 0 <= i < |antes| ==> antes[i].semana != aus[|aus| - 1].semana
    ensures TimelineCerta(antes + [PontoSemana(aus[|aus| - 1].semana, 1)], aus)
  {
    var a := aus[|aus| - 1];
    var c := antes + [PontoSemana(a.semana, 1)];
    forall i | 0 <= i < |c|
      ensures c[i].total == NaSemana(aus, c[i].semana) > 0
    {
      if i < |antes| {
        assert c[i] == antes[i];
      }
    }
    forall semana: int | NaSemana(aus, semana) > 0
      ensures exists j :: 0 <= j < |c| && c[j].semana == semana
    {
      if semana != a.semana {
        assert NaSemana(aus[..|aus| - 1], semana) > 0;
        var j :| 0 <= j < |antes| && antes[j].semana == semana;
        assert c[j].semana == semana;
      } else {
        assert c[|antes|].semana == semana;
      }
    }
  }

  /** The timeline loop of the handler, proved to build `PorSemana`. */
  method ContarPorSemana(aus: seq<Ausencia>) returns (porSemana: seq<PontoSemana>)
    ensures porSemana == PorSemana(aus)
  {
    porSemana := [];
    for i := 0 to |aus|
      invariant porSemana == PorSemana(aus[..i])
    {
      var ausencia := aus[i];
      assert aus[..i + 1][..i] == aus[..i];
      var atual := FirstIndex(porSemana, (p: PontoSemana) => p.semana == ausencia.semana);
      if atual.Some? {
        porSemana := porSemana[atual.value := PontoSemana(ausencia.semana, porSemana[atual.value].total + 1)];
      } else {
        porSemana := porSemana + [PontoSemana(ausencia.semana, 1)];
      }
    }
    assert aus[..|aus|] == aus;
  }

  /** The points sorted by ascending week number, then the last eight. */
  function Timeline(c: seq<PontoSemana>): (r: seq<PontoSemana>)
    ensures |r| == if |c| < 8 then |c| else 8
    ensures forall i, j :: 0 <= i < j < |r| ==> r[i].semana <= r[j].semana
    ensures multiset(r) <= multiset(c)
    ensures forall p :: p in multiset(c) - multiset(r) ==> forall x :: x in r ==> p.semana <= x.semana
  {
    var ordenados := SortBy(c, (p: PontoSemana) => p.semana);
    var m := if |c| < 8 then 0 else |c| - 8;
    DropFirst(ordenados, (p: PontoSemana) => p.semana, m);
    ordenados[m..]
  }

  /** Every point of the timeline is a week with absences, carrying how many it has. */
  lemma TimelineContaAusencias(aus: seq<Ausencia>)
    ensures var t := Timeline(PorSemana(aus));
            forall i :: 0 <= i < |t| ==> t[i].total == NaSemana(aus, t[i].semana) > 0
  {
    var c := PorSemana(aus);
    var t := Timeline(c);
    PorSemanaCorreta(aus);
    forall i | 0 <= i < |t|
      ensures t[i].total == NaSemana(aus, t[i].semana) > 0
    {
      assert t[i] in multiset(t);
      assert t[i] in c;
    }
  }

  // ---------------------------------------------------------------- the handler

  datatype Estatisticas = Estatisticas(
    totalSubstituicoes: nat,
    substituicoesAtribuidas: nat,
    semDisponibilidade: nat,
    pendentes: nat,
    professoresMaisEscalados: seq<Escalado>,
    substituicoesTimeline: seq<PontoSemana>)

  /** The dashboard figures for the given tables. */
  method GerarEstatisticas(subs: seq<Substituicao>, profs: seq<Professor>, aus: seq<Ausencia>) returns (r: Estatisticas)
    ensures r.totalSubstituicoes == |subs|
    ensures r.substituicoesAtribuidas == ContarStatus(subs, Atribuida)
    ensures r.semDisponibilidade == ContarStatus(subs, SemDisponibilidade)
    ensures r.pendentes == ContarStatus(subs, Pendente)
    ensures r.substituicoesAtribuidas + r.semDisponibilidade + r.pendentes == r.totalSubstituicoes
    ensures var top := MaisEscalados(Contagem(subs, profs));
            |r.professoresMaisEscalados| == |top| && forall i :: 0 <= i < |top| ==> r.professoresMaisEscalados[i] == Valor(top[i])
    ensures r.substituicoesTimeline == Timeline(PorSemana(aus))
  {
    StatusParticionam(subs);
    var contagem := ContarEscalados(subs, profs);
    var top := MaisEscalados(contagem);
    var porSemana := ContarPorSemana(aus);
    r := Estatisticas(
      |subs|,
      ContarStatus(subs, Atribuida),
      ContarStatus(subs, SemDisponibilidade),
      ContarStatus(subs, Pendente),
      seq(|top|, i requires 0 <= i < |top| => Valor(top[i])),
      Timeline(porSemana));
  }
}
