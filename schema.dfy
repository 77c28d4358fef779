/** The record shapes of the five tables, their insert defaults, the partial
    updates the store accepts, and the field constraints checked on a new absence. */
module Schema {
  import opened Wrappers
  import opened Tables

  // ---------------------------------------------------------------- teachers

  /** A teacher; `cargaHoraria` is the substitute hours accumulated so far. */
  datatype Professor = Professor(id: Id, nome: string, areaConhecimento: string, cargaHoraria: int)

  /** What a client supplies to create a teacher: the id and the workload are not among the fields. */
  datatype InsertProfessor = InsertProfessor(nome: string, areaConhecimento: string)

  /** A partial update of a teacher (`Partial<InsertProfessor>`); `None` leaves a field as it is. */
  datatype ProfessorPatch = ProfessorPatch(nome: Option<string>, areaConhecimento: Option<string>)

  /** The row stored for a new teacher: the workload column takes its default, 0. */
  function NewProfessor(id: Id, p: InsertProfessor): (r: Professor)
    ensures r.id == id && r.nome == p.nome && r.areaConhecimento == p.areaConhecimento
    ensures r.cargaHoraria == 0
  {
    Professor(id, p.nome, p.areaConhecimento, 0)
  }

  /** A patch may rename a teacher or change their area, never their id or workload. */
  function PatchProfessor(p: Professor, u: ProfessorPatch): (r: Professor)
    ensures r.id == p.id && r.cargaHoraria == p.cargaHoraria
    ensures r.nome == (if u.nome.Some? then u.nome.value else p.nome)
    ensures r.areaConhecimento == (if u.areaConhecimento.Some? then u.areaConhecimento.value else p.areaConhecimento)
  {
    p.(nome := u.nome.GetOr(p.nome), areaConhecimento := u.areaConhecimento.GetOr(p.areaConhecimento))
  }

  // ---------------------------------------------------------------- subjects and classes

  datatype Disciplina = Disciplina(id: Id, nome: string, areaConhecimento: string)
  datatype InsertDisciplina = InsertDisciplina(nome: string, areaConhecimento: string)
  datatype DisciplinaPatch = DisciplinaPatch(nome: Option<string>, areaConhecimento: Option<string>)

  function PatchDisciplina(d: Disciplina, u: DisciplinaPatch): (r: Disciplina)
    ensures r.id == d.id
    ensures r.nome == (if u.nome.Some? then u.nome.value else d.nome)
    ensures r.areaConhecimento == (if u.areaConhecimento.Some? then u.areaConhecimento.value else d.areaConhecimento)
  {
    d.(nome := u.nome.GetOr(d.nome), areaConhecimento := u.areaConhecimento.GetOr(d.areaConhecimento))
  }

  datatype Turma = Turma(id: Id, nome: string)
  datatype InsertTurma = InsertTurma(nome: string)
  datatype TurmaPatch = TurmaPatch(nome: Option<string>)

  function PatchTurma(t: Turma, u: TurmaPatch): (r: Turma)
    ensures r.id == t.id
    ensures r.nome == (if u.nome.Some? then u.nome.value else t.nome)
  {
    t.(nome := u.nome.GetOr(t.nome))
  }

  // ---------------------------------------------------------------- absences

  /** A recorded absence: `diaSemana` 0 is Monday, `duracao` is in hours, `semana` is the week of the year.
      Absences are never updated, only created and deleted. */
  datatype Ausencia = Ausencia(
    id: Id, professorId: Id, disciplinaId: Id, turmaId: Id,
    diaSemana: int, horarioInicio: string, duracao: int, semana: int, ano: int)

  datatype InsertAusencia = InsertAusencia(
    professorId: Id, disciplinaId: Id, turmaId: Id,
    diaSemana: int, horarioInicio: string, duracao: int, semana: int, ano: int)

  function NewAusencia(id: Id, a: InsertAusencia): (r: Ausencia)
    ensures r.id == id
    ensures InsertAusencia(r.professorId, r.disciplinaId, r.turmaId, r.diaSemana,
                           r.horarioInicio, r.duracao, r.semana, r.ano) == a
  {
    Ausencia(id, a.professorId, a.disciplinaId, a.turmaId, a.diaSemana, a.horarioInicio, a.duracao, a.semana, a.ano)
  }

  /** The fields of a new absence that carry a constraint. */
  datatype Campo = DiaSemana | HorarioInicio | Duracao | Semana | Ano

  function IsDigit(c: char): bool { '0' <= c <= '9' }

  /** The minute part of the time pattern: a digit 0 to 5, then any digit. */
  function MinutoTexto(m: string): bool
  {
    |m| == 2 && '0' <= m[0] <= '5' && IsDigit(m[1])
  }

  /** The hour part of the time pattern: an optional 0 or 1 followed by a digit, or 2 followed by 0 to 3. */
  function HoraTexto(h: string): bool
  {
    || (|h| == 1 && IsDigit(h[0]))
    || (|h| == 2 && '0' <= h[0] <= '1' && IsDigit(h[1]))
    || (|h| == 2 && h[0] == '2' && '0' <= h[1] <= '3')
  }

  /** The anchored pattern `^([0-1]?[0-9]|2[0-3]):[0-5][0-9]$` on a start time: an hour part of one or
      two characters, a colon, a minute part. */
  function HorarioValido(s: string): bool
  {
    || (|s| == 4 && HoraTexto(s[..1]) && s[1] == ':' && MinutoTexto(s[2..]))
    || (|s| == 5 && HoraTexto(s[..2]) && s[2] == ':' && MinutoTexto(s[3..]))
  }

  /** Whether one constrained field of `a` is within its bounds (all bounds inclusive). */
  function CampoValido(a: InsertAusencia, c: Campo): bool
  {
    match c
    case DiaSemana => 0 <= a.diaSemana <= 4
    case HorarioInicio => HorarioValido(a.horarioInicio)
    case Duracao => 1 <= a.duracao <= 8
    case Semana => 1 <= a.semana <= 53
    case Ano => a.ano >= 2024
  }

  /** The fields among `cs` that fail their constraint, in the order of `cs`. */
  function Failing(a: InsertAusencia, cs: seq<Campo>): (r: seq<Campo>)
    ensures forall c :: c in r <==> c in cs && !CampoValido(a, c)
  {
    if cs == [] then []
    else (if CampoValido(a, cs[0]) then [] else [cs[0]]) + Failing(a, cs[1..])
  }

  /** Checks a new absence against every constraint and reports all the fields that fail. */
  function ValidateAusencia(a: InsertAusencia): (r: Result<InsertAusencia, seq<Campo>>)
    ensures r.Success? <==> forall c: Campo :: CampoValido(a, c)
    ensures r.Success? ==> r.value == a
    ensures r.Failure? ==> r.error != [] && forall c: Campo :: c in r.error <==> !CampoValido(a, c)
  {
    var falhas := Failing(a, [DiaSemana, HorarioInicio, Duracao, Semana, Ano]);
    if falhas == [] then Success(a)
    else assert !CampoValido(a, falhas[0]); Failure(falhas)
  }

  // ---------------------------------------------------------------- reference form of a start time

  function Digito(n: int): char
    requires 0 <= n <= 9
  {
    ('0' as int + n) as char
  }

  function ValorDigito(c: char): int
  {
    c as int - '0' as int
  }

  /** The text of hour `h` and minute `m`: the hour on two digits when `zeroPad` or when it needs two. */
  function FormatHorario(h: int, m: int, zeroPad: bool): string
    requires 0 <= h <= 23 && 0 <= m <= 59
  {
    (if zeroPad || h >= 10 then [Digito(h / 10), Digito(h % 10)] else [Digito(h)])
    + ":" + [Digito(m / 10), Digito(m % 10)]
  }

  /** The hour read back from a start time of four or five characters. */
  function HoraDe(s: string): int
    requires |s| == 4 || |s| == 5
  {
    if |s| == 4 then ValorDigito(s[0]) else 10 * ValorDigito(s[0]) + ValorDigito(s[1])
  }

  /** The minute read back from a start time of four or five characters. */
  function MinutoDe(s: string): int
    requires |s| == 4 || |s| == 5
  {
    10 * ValorDigito(s[|s| - 2]) + ValorDigito(s[|s| - 1])
  }

  /** Every hour 0..23 and minute 0..59, written with or without a leading zero on the hour, is accepted. */
  lemma {:induction false} FormattedHorarioIsValid(h: int, m: int, zeroPad: bool)
    requires 0 <= h <= 23 && 0 <= m <= 59
    ensures HorarioValido(FormatHorario(h, m, zeroPad))
  {
    var s := FormatHorario(h, m, zeroPad);
    if zeroPad || h >= 10 {
      assert s[..2] == [Digito(h / 10), Digito(h % 10)];
      assert s[3..] == [Digito(m / 10), Digito(m % 10)];
    } else {
      assert s[..1] == [Digito(h)];
      assert s[2..] == [Digito(m / 10), Digito(m % 10)];
    }
  }

  /** Every accepted start time is exactly such a text: its hour is at most 23 and its minute at most 59. */
  lemma {:induction false} ValidHorarioIsFormatted(s: string)
    requires HorarioValido(s)
    ensures 0 <= HoraDe(s) <= 23 && 0 <= MinutoDe(s) <= 59
    ensures s == FormatHorario(HoraDe(s), MinutoDe(s), |s| == 5)
  {
    var h, m := HoraDe(s), MinutoDe(s);
    if |s| == 4 {
      assert HoraTexto(s[..1]) && MinutoTexto(s[2..]);
      assert s[..1][0] == s[0];
      assert s[2..][0] == s[2] && s[2..][1] == s[3];
    } else {
      assert HoraTexto(s[..2]) && MinutoTexto(s[3..]);
      assert s[..2][0] == s[0] && s[..2][1] == s[1];
      assert s[3..][0] == s[3] && s[3..][1] == s[4];
    }
    var f := FormatHorario(h, m, |s| == 5);
    assert |f| == |s|;
    assert forall i :: 0 <= i < |s| ==> f[i] == s[i];
  }

  /** Out-of-range times are refused: hour 24, minute 60, a one-digit minute. */
  lemma HorarioExamples()
    ensures HorarioValido("7:05") && HorarioValido("07:05") && HorarioValido("23:59") && HorarioValido("0:00")
    ensures !HorarioValido("24:00") && !HorarioValido("7:60") && !HorarioValido("12:5") && !HorarioValido("123:00")
  {
    assert "7:05"[..1] == "7" && "7:05"[2..] == "05";
    assert "07:05"[..2] == "07" && "07:05"[3..] == "05";
    assert "23:59"[..2] == "23" && "23:59"[3..] == "59";
    assert "0:00"[..1] == "0" && "0:00"[2..] == "00";
    assert "24:00"[..2] == "24";
    assert "7:60"[2..] == "60";
  }

  // ---------------------------------------------------------------- substitutions

  /** The three states of a substitution: waiting for a run, covered, or no substitute available. */
  datatype Status = Pendente | Atribuida | SemDisponibilidade

  datatype Substituicao = Substituicao(
    id: Id, ausenciaId: Id, professorSubstitutoId: Option<Id>, status: Status, mensagem: Option<string>)

  /** The insert shape: the substitute and the message are nullable, the status may be omitted. */
  datatype InsertSubstituicao = InsertSubstituicao(
    ausenciaId: Id, professorSubstitutoId: Option<Id>, status: Option<Status>, mensagem: Option<string>)

  /** A partial update of a substitution. For the two nullable columns, `Some(None)` writes null. */
  datatype SubstituicaoPatch = SubstituicaoPatch(
    ausenciaId: Option<Id>, professorSubstitutoId: Option<Option<Id>>,
    status: Option<Status>, mensagem: Option<Option<string>>)

  /** The row stored for a new substitution: an omitted status takes the default `pendente`. */
  function NewSubstituicao(id: Id, s: InsertSubstituicao): (r: Substituicao)
    ensures r.id == id && r.ausenciaId == s.ausenciaId
    ensures r.professorSubstitutoId == s.professorSubstitutoId && r.mensagem == s.mensagem
    ensures s.status.None? ==> r.status == Pendente
    ensures s.status.Some? ==> r.status == s.status.value
  {
    Substituicao(id, s.ausenciaId, s.professorSubstitutoId, s.status.GetOr(Pendente), s.mensagem)
  }

  /** The substitution created together with an absence: pending, with no substitute and no message. */
  function PendingFor(ausenciaId: Id): InsertSubstituicao
  {
    InsertSubstituicao(ausenciaId, None, Some(Pendente), None)
  }

  /** A patch changes exactly the fields it names and never the id. */
  function PatchSubstituicao(s: Substituicao, u: SubstituicaoPatch): (r: Substituicao)
    ensures r.id == s.id
    ensures r.ausenciaId == (if u.ausenciaId.Some? then u.ausenciaId.value else s.ausenciaId)
    ensures r.professorSubstitutoId ==
              (if u.professorSubstitutoId.Some? then u.professorSubstitutoId.value else s.professorSubstitutoId)
    ensures r.status == (if u.status.Some? then u.status.value else s.status)
    ensures r.mensagem == (if u.mensagem.Some? then u.mensagem.value else s.mensagem)
  {
    Substituicao(
      s.id,
      u.ausenciaId.GetOr(s.ausenciaId),
      u.professorSubstitutoId.GetOr(s.professorSubstitutoId),
      u.status.GetOr(s.status),
      u.mensagem.GetOr(s.mensagem))
  }

  /** The record invariant of a substitution: it names a substitute exactly when it is assigned. */
  predicate Coerente(s: Substituicao)
  {
    s.status == Atribuida <==> s.professorSubstitutoId.Some?
  }
}
