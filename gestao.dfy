/**
 * The COHAGRA management page: the list of housing-assistance demands, its
 * statistics and status tabs, the status labels, and the status update that
 * the action buttons of each row trigger.
 */
module Gestao {
  import opened Wrappers
  import opened Seqs

  datatype Coordenadas = Coordenadas(lat: real, lng: real)

  datatype DadosUsuario = DadosUsuario(nome: string, telefone: string, email: string)

  /**
   * A demand as the page holds it. The records come from parsed JSON and are
   * not validated, so `tipo` and `status` are whatever text was stored.
   */
  datatype Demanda = Demanda(
    id: string,
    tipo: string,
    descricao: string,
    endereco: string,
    coordenadas: Coordenadas,
    status: string,
    data: string,
    dadosUsuario: DadosUsuario)

  // ---------------------------------------------------------------------------
  // Statuses and their texts
  // ---------------------------------------------------------------------------

  datatype Status = Pendente | EmAnalise | Aprovado | Rejeitado

  /** The statuses `updateDemandaStatus` accepts: everything but pending. */
  type TargetStatus = s: Status | s != Pendente witness EmAnalise

  /** The text a status is stored as. */
  function StatusName(s: Status): (name: string)
  {
    match s
    case Pendente => "pendente"
    case EmAnalise => "em_analise"
    case Aprovado => "aprovado"
    case Rejeitado => "rejeitado"
  }

  /** The status a stored text denotes, if it denotes one. */
  function ParseStatus(text: string): (s: Option<Status>)
    ensures s.Some? ==> StatusName(s.value) == text
  {
    if text == "pendente" then Some(Pendente)
    else if text == "em_analise" then Some(EmAnalise)
    else if text == "aprovado" then Some(Aprovado)
    else if text == "rejeitado" then Some(Rejeitado)
    else None
  }

  /** Every status is read back from the text it is stored as. */
  lemma ParseStatusName(s: Status)
    ensures ParseStatus(StatusName(s)) == Some(s)
  {
  }

  /** `getStatusText`: the label of a stored status, "Desconhecido" for any other text. */
  function GetStatusText(status: string): (text: string)
    ensures text == "Desconhecido" <==> ParseStatus(status) == None
  {
    if status == "pendente" then "Pendente"
    else if status == "em_analise" then "Em Análise"
    else if status == "aprovado" then "Aprovado"
    else if status == "rejeitado" then "Rejeitado"
    else "Desconhecido"
  }

  /** Distinct statuses get distinct labels. */
  lemma StatusLabelsDistinct(a: Status, b: Status)
    ensures GetStatusText(StatusName(a)) == GetStatusText(StatusName(b)) <==> a == b
  {
  }

  /** The label the confirmation toast of a status update uses: the same as the status badge. */
  function ToastStatusText(s: TargetStatus): (text: string)
    ensures text == GetStatusText(StatusName(s))
  {
    match s
    case EmAnalise => "Em Análise"
    case Aprovado => "Aprovado"
    case Rejeitado => "Rejeitado"
  }

  /** `getTipoText`: land regularisation for "regularizacao", housing improvement for any other kind. */
  function GetTipoText(tipo: string): (text: string)
    ensures text == "Regularização Fundiária" <==> tipo == "regularizacao"
    ensures text == "Regularização Fundiária" || text == "Melhorias Habitacionais"
  {
    if tipo == "regularizacao" then "Regularização Fundiária" else "Melhorias Habitacionais"
  }

  // ---------------------------------------------------------------------------
  // The lifecycle: buttons of a row and the transition table they realise
  // ---------------------------------------------------------------------------

  /** The status buttons a table row renders for a demand whose status text is `status`. */
  function Actions(status: string): (actions: seq<TargetStatus>)
  {
    if status == "pendente" then [EmAnalise, Aprovado, Rejeitado]
    else if status == "em_analise" then [Aprovado, Rejeitado]
    else []
  }

  /** The lifecycle as an explicit transition relation. */
  predicate CanTransition(from: Status, to: Status)
  {
    match from
    case Pendente => to == EmAnalise || to == Aprovado || to == Rejeitado
    case EmAnalise => to == Aprovado || to == Rejeitado
    case Aprovado => false
    case Rejeitado => false
  }

  /** The buttons a row offers are exactly the permitted transitions out of its status. */
  lemma ActionsAreTransitions(from: Status, to: Status)
    ensures to in Actions(StatusName(from)) <==> CanTransition(from, to)
  {
  }

  /** A row whose status text is not a status offers no button. */
  lemma UnknownStatusHasNoActions(status: string)
    requires ParseStatus(status) == None
    ensures Actions(status) == []
  {
  }

  /** Approved and rejected are the terminal states: nothing leaves them, and everything else can move. */
  lemma TerminalStates(s: Status)
    ensures (s == Aprovado || s == Rejeitado) <==> forall t :: !CanTransition(s, t)
  {
    if s == Pendente {
      assert CanTransition(s, Aprovado);
    } else if s == EmAnalise {
      assert CanTransition(s, Aprovado);
    }
  }

  /** How far a status has come along the lifecycle. */
  function Stage(s: Status): (stage: nat)
  {
    match s
    case Pendente => 0
    case EmAnalise => 1
    case Aprovado => 2
    case Rejeitado => 2
  }

  /** Every transition moves forward: none returns to an earlier stage, none stays put. */
  lemma TransitionsAdvance(a: Status, b: Status)
    requires CanTransition(a, b)
    ensures Stage(a) < Stage(b)
    ensures b != Pendente
  {
  }

  /** Moving from the status text `from` to `to` is a permitted transition. */
  predicate Step(from: string, to: string)
  {
    match (ParseStatus(from), ParseStatus(to))
    case (Some(a), Some(b)) => CanTransition(a, b)
    case _ => false
  }

  // ---------------------------------------------------------------------------
  // The status update (updateDemandaStatus)
  // ---------------------------------------------------------------------------

  /** `b` is `a` with, at most, another status. */
  predicate SameExceptStatus(a: Demanda, b: Demanda)
  {
    a.(status := b.status) == b
  }

  /** The new list of `updateDemandaStatus`: every demand with identifier `id` takes the status `novo`. */
  function UpdateStatus(ds: seq<Demanda>, id: string, novo: TargetStatus): (r: seq<Demanda>)
    ensures |r| == |ds|
    ensures forall k :: 0 <= k < |ds| && ds[k].id != id ==> r[k] == ds[k]
    ensures forall k :: 0 <= k < |ds| && ds[k].id == id ==>
      r[k].status == StatusName(novo) && SameExceptStatus(ds[k], r[k])
  {
    if ds == [] then []
    else
      [if ds[0].id == id then ds[0].(status := StatusName(novo)) else ds[0]]
      + UpdateStatus(ds[1..], id, novo)
  }

  /** Updating to the same status twice has the effect of updating once. */
  lemma UpdateIdempotent(ds: seq<Demanda>, id: string, novo: TargetStatus)
    ensures UpdateStatus(UpdateStatus(ds, id, novo), id, novo) == UpdateStatus(ds, id, novo)
  {
    var once := UpdateStatus(ds, id, novo);
    var twice := UpdateStatus(once, id, novo);
    forall k | 0 <= k < |ds| ensures twice[k] == once[k] {
      if ds[k].id == id {
        assert once[k].id == id;
      }
    }
  }

  /** An identifier that no demand carries changes nothing. */
  lemma UpdateAbsentId(ds: seq<Demanda>, id: string, novo: TargetStatus)
    requires forall k :: 0 <= k < |ds| ==> ds[k].id != id
    ensures UpdateStatus(ds, id, novo) == ds
  {
  }

  /** No update makes a demand pending that was not pending before. */
  lemma UpdateNeverToPending(ds: seq<Demanda>, id: string, novo: TargetStatus, k: nat)
    requires k < |ds|
    ensures UpdateStatus(ds, id, novo)[k].status == "pendente" ==> ds[k].status == "pendente"
  {
  }

  /** Identifiers are unique: the assumption under which one row stands for one demand. */
  ghost predicate UniqueIds(ds: seq<Demanda>)
  {
    forall i, j :: 0 <= i < j < |ds| ==> ds[i].id != ds[j].id
  }

  /** Every demand keeps its status or takes a permitted transition, and nothing else about it changes. */
  ghost predicate Progressed(before: seq<Demanda>, after: seq<Demanda>)
  {
    |after| == |before| &&
    forall k :: 0 <= k < |before| ==>
      after[k] == before[k] || (SameExceptStatus(before[k], after[k]) && Step(before[k].status, after[k].status))
  }

  /** Pressing a button a row offers moves that demand along a permitted transition. */
  lemma UpdateFollowsLifecycle(ds: seq<Demanda>, k: nat, novo: TargetStatus)
    requires UniqueIds(ds) && k < |ds|
    requires novo in Actions(ds[k].status)
    ensures Progressed(ds, UpdateStatus(ds, ds[k].id, novo))
  {
    var r := UpdateStatus(ds, ds[k].id, novo);
    var from := ParseStatus(ds[k].status);
    assert from.Some?;
    ParseStatusName(novo);
    ActionsAreTransitions(from.value, novo);
    forall j | 0 <= j < |ds| && j != k ensures r[j] == ds[j] {
      assert ds[j].id != ds[k].id;
    }
  }

  /** With a shared identifier, approving one demand also rewrites a demand already rejected. */
  lemma SharedIdRewritesTerminal(p: Demanda, q: Demanda)
    requires p.id == q.id && p.status == "pendente" && q.status == "rejeitado"
    ensures !Progressed([p, q], UpdateStatus([p, q], p.id, Aprovado))
  {
    var r := UpdateStatus([p, q], p.id, Aprovado);
    assert r[1].status == "aprovado";
    assert !Step(q.status, r[1].status);
  }

  // ---------------------------------------------------------------------------
  // Statistics (stats)
  // ---------------------------------------------------------------------------

  datatype Stats = Stats(
    total: nat,
    pendentes: nat,
    emAnalise: nat,
    aprovadas: nat,
    rejeitadas: nat,
    regularizacao: nat,
    melhorias: nat)

  /** The number of demands whose status text is `status`. */
  function CountStatus(ds: seq<Demanda>, status: string): (n: nat)
  {
    |Filter(ds, (d: Demanda) => d.status == status)|
  }

  /** The number of demands whose kind text is `tipo`. */
  function CountTipo(ds: seq<Demanda>, tipo: string): (n: nat)
  {
    |Filter(ds, (d: Demanda) => d.tipo == tipo)|
  }

  /** The number of demands whose status text is no status at all. */
  function CountUnknownStatus(ds: seq<Demanda>): (n: nat)
  {
    |Filter(ds, (d: Demanda) => ParseStatus(d.status).None?)|
  }

  /** The number of demands whose kind text is neither of the two kinds. */
  function CountUnknownTipo(ds: seq<Demanda>): (n: nat)
  {
    |Filter(ds, (d: Demanda) => d.tipo != "regularizacao" && d.tipo != "melhorias")|
  }

  /** Counting a status in a non-empty list: the first demand, then the rest. */
  lemma CountStatusCons(ds: seq<Demanda>, status: string)
    requires ds != []
    ensures CountStatus(ds, status) == (if ds[0].status == status then 1 else 0) + CountStatus(ds[1..], status)
  {
  }

  /** Counting a status around position `k`: the demands before it, the one at it, those after it. */
  lemma CountStatusSplit(ds: seq<Demanda>, k: nat, status: string)
    requires k < |ds|
    ensures CountStatus(ds, status)
      == CountStatus(ds[..k], status) + (if ds[k].status == status then 1 else 0) + CountStatus(ds[k + 1..], status)
  {
    var p := (d: Demanda) => d.status == status;
    assert ds == ds[..k] + [ds[k]] + ds[k + 1..];
    FilterAppend(ds[..k] + [ds[k]], ds[k + 1..], p);
    FilterAppend(ds[..k], [ds[k]], p);
  }

  /** The four status counts and the unknown ones partition the list. */
  lemma {:induction false} StatusPartition(ds: seq<Demanda>)
    ensures CountStatus(ds, "pendente") + CountStatus(ds, "em_analise") + CountStatus(ds, "aprovado")
      + CountStatus(ds, "rejeitado") + CountUnknownStatus(ds) == |ds|
  {
    if ds != [] {
      StatusPartition(ds[1..]);
      CountStatusCons(ds, "pendente");
      CountStatusCons(ds, "em_analise");
      CountStatusCons(ds, "aprovado");
      CountStatusCons(ds, "rejeitado");
      assert |Filter(ds, (d: Demanda) => ParseStatus(d.status).None?)|
        == (if ParseStatus(ds[0].status).None? then 1 else 0) + CountUnknownStatus(ds[1..]);
    }
  }

  /** The two kind counts and the unknown ones partition the list. */
  lemma {:induction false} TipoPartition(ds: seq<Demanda>)
    ensures CountTipo(ds, "regularizacao") + CountTipo(ds, "melhorias") + CountUnknownTipo(ds) == |ds|
  {
    if ds != [] {
      TipoPartition(ds[1..]);
    }
  }

  /** `stats`: the totals the page shows in its cards and tab labels. */
  function ComputeStats(ds: seq<Demanda>): (st: Stats)
    ensures st.total == |ds|
    ensures st.pendentes + st.emAnalise + st.aprovadas + st.rejeitadas <= st.total
    ensures st.regularizacao + st.melhorias <= st.total
  {
    StatusPartition(ds);
    TipoPartition(ds);
    Stats(
      |ds|,
      CountStatus(ds, "pendente"),
      CountStatus(ds, "em_analise"),
      CountStatus(ds, "aprovado"),
      CountStatus(ds, "rejeitado"),
      CountTipo(ds, "regularizacao"),
      CountTipo(ds, "melhorias"))
  }

  /** When every demand has a known status, the four status counts add up to the total. */
  lemma StatusCountsAddUp(ds: seq<Demanda>)
    requires forall k :: 0 <= k < |ds| ==> ParseStatus(ds[k].status).Some?
    ensures var st := ComputeStats(ds);
      st.pendentes + st.emAnalise + st.aprovadas + st.rejeitadas == st.total
  {
    StatusPartition(ds);
    assert Filter(ds, (d: Demanda) => ParseStatus(d.status).None?) == [];
  }

  /** When every demand has a known kind, the two kind counts add up to the total. */
  lemma TipoCountsAddUp(ds: seq<Demanda>)
    requires forall k :: 0 <= k < |ds| ==> ds[k].tipo == "regularizacao" || ds[k].tipo == "melhorias"
    ensures var st := ComputeStats(ds);
      st.regularizacao + st.melhorias == st.total
  {
    TipoPartition(ds);
    assert Filter(ds, (d: Demanda) => d.tipo != "regularizacao" && d.tipo != "melhorias") == [];
  }

  /**
   * An update of a demand whose identifier is unique moves one unit from the
   * count of its old status to the count of its new one.
   */
  lemma UpdateMovesCount(ds: seq<Demanda>, k: nat, novo: TargetStatus, status: string)
    requires k < |ds|
    requires forall j :: 0 <= j < |ds| && j != k ==> ds[j].id != ds[k].id
    ensures CountStatus(UpdateStatus(ds, ds[k].id, novo), status) + (if ds[k].status == status then 1 else 0)
      == CountStatus(ds, status) + (if StatusName(novo) == status then 1 else 0)
  {
    var r := UpdateStatus(ds, ds[k].id, novo);
    assert r[..k] == ds[..k];
    assert r[k + 1..] == ds[k + 1..];
    CountStatusSplit(r, k, status);
    CountStatusSplit(ds, k, status);
  }

  // ---------------------------------------------------------------------------
  // Status tabs (filtrarDemandas)
  // ---------------------------------------------------------------------------

  /** A missing or empty tab value, or "todas", selects every demand. */
  predicate ShowsAll(status: Option<string>)
  {
    status.None? || status.value == "" || status.value == "todas"
  }

  /** `filtrarDemandas`: the demands a tab lists. */
  function FiltrarDemandas(ds: seq<Demanda>, status: Option<string>): (r: seq<Demanda>)
    ensures ShowsAll(status) ==> r == ds
    ensures !ShowsAll(status) ==> forall d :: d in r <==> d in ds && d.status == status.value
    ensures !ShowsAll(status) ==> |r| == CountStatus(ds, status.value)
  {
    if ShowsAll(status) then ds
    else Filter(ds, (d: Demanda) => d.status == status.value)
  }

  /** A tab lists the demands in the order of the list: filtering commutes with concatenation. */
  lemma FiltrarKeepsOrder(a: seq<Demanda>, b: seq<Demanda>, status: Option<string>)
    ensures FiltrarDemandas(a + b, status) == FiltrarDemandas(a, status) + FiltrarDemandas(b, status)
  {
    if !ShowsAll(status) {
      FilterAppend(a, b, (d: Demanda) => d.status == status.value);
    }
  }

  /** A tab lists each selected demand as often as the list holds it, and no other. */
  lemma FiltrarMultiplicity(ds: seq<Demanda>, status: Option<string>, d: Demanda)
    ensures multiset(FiltrarDemandas(ds, status))[d]
      == if ShowsAll(status) || d.status == status.value then multiset(ds)[d] else 0
  {
    if !ShowsAll(status) {
      FilterMultiplicity(ds, (x: Demanda) => x.status == status.value, d);
    }
  }

  // ---------------------------------------------------------------------------
  // The page state
  // ---------------------------------------------------------------------------

  /**
   * The page's list of demands and the stored copy it writes back to the
   * browser store under the key 'athis-demandas'.
   */
  class GestaoPage {
    var demandas: seq<Demanda>
    var stored: Option<seq<Demanda>>

    /** Loads the stored list, or starts empty when nothing is stored. */
    constructor (saved: Option<seq<Demanda>>)
      ensures stored == saved
      ensures demandas == if saved.Some? then saved.value else []
    {
      stored := saved;
      demandas := if saved.Some? then saved.value else [];
    }

    /** `updateDemandaStatus`: replaces the list and its stored copy with the updated list. */
    method UpdateDemandaStatus(id: string, novoStatus: TargetStatus)
      modifies this
      ensures demandas == UpdateStatus(old(demandas), id, novoStatus)
      ensures stored == Some(demandas)
    {
      var demandasAtualizadas := UpdateStatus(demandas, id, novoStatus);
      demandas := demandasAtualizadas;
      stored := Some(demandasAtualizadas);
    }

    /**
     * A click on the button for `action` in row `row` of tab `tab`: it has
     * an effect only if that row exists and renders that button.
     */
    method PressAction(tab: Option<string>, row: nat, action: TargetStatus) returns (applied: bool)
      modifies this
      ensures var rows := FiltrarDemandas(old(demandas), tab);
        applied <==> row < |rows| && action in Actions(rows[row].status)
      ensures applied ==>
        demandas == UpdateStatus(old(demandas), FiltrarDemandas(old(demandas), tab)[row].id, action)
        && stored == Some(demandas)
      ensures !applied ==> demandas == old(demandas) && stored == old(stored)
      ensures UniqueIds(old(demandas)) ==> Progressed(old(demandas), demandas)
    {
      var rows := FiltrarDemandas(demandas, tab);
      applied := row < |rows| && action in Actions(rows[row].status);
      if applied {
        ghost var before := demandas;
        var demanda := rows[row];
        ghost var k :| 0 <= k < |before| && before[k] == demanda;
        UpdateDemandaStatus(demanda.id, action);
        if UniqueIds(before) {
          UpdateFollowsLifecycle(before, k, action);
        }
      } else {
        assert Progressed(demandas, demandas);
      }
    }
  }
}
