/** Assembling streamed tool-call fragments into complete calls. */
module ToolCalls {
  import opened Prelude
  import opened Text
  import Utf8

  const MAX_PENDING_CALLS := 32
  const MAX_FIELD_BYTES := 64 * 1024

  datatype Delta = Delta(index: nat, id: Option<string>, name: Option<string>, arguments: Option<string>)

  datatype PendingCall = PendingCall(id: Option<string>, name: string, arguments: string)

  const EMPTY_CALL := PendingCall(None, "", "")

  type Pending = map<nat, PendingCall>

  function CallAt(pending: Pending, index: nat): PendingCall {
    if index in pending then pending[index] else EMPTY_CALL
  }

  function TextOf(delta: Option<string>): string {
    if delta.Some? then delta.value else ""
  }

  function Merged(call: PendingCall, delta: Delta): PendingCall {
    PendingCall(if delta.id.Some? then delta.id else call.id, call.name + TextOf(delta.name),
                call.arguments + TextOf(delta.arguments))
  }

  /** Whether a fragment fits: a new index only below the call limit, and every field it extends within
      the field limit. */
  predicate Fits(pending: Pending, delta: Delta) {
    && (delta.index in pending || |pending| < MAX_PENDING_CALLS)
    && (delta.id.Some? ==> Utf8.Size(delta.id.value) <= MAX_FIELD_BYTES)
    && (delta.name.Some? ==>
          Utf8.Size(CallAt(pending, delta.index).name) + Utf8.Size(delta.name.value) <= MAX_FIELD_BYTES)
    && (delta.arguments.Some? ==>
          Utf8.Size(CallAt(pending, delta.index).arguments) + Utf8.Size(delta.arguments.value) <= MAX_FIELD_BYTES)
  }

  function Applied(pending: Pending, delta: Delta): Pending {
    pending[delta.index := Merged(CallAt(pending, delta.index), delta)]
  }

  class ToolCallAssembler {
    var pending: Pending

    constructor ()
      ensures pending == map[]
    {
      pending := map[];
    }

    /** Accepts a fragment and merges it in, or rejects it and changes nothing. */
    method Apply(delta: Delta) returns (accepted: bool)
      modifies this
      ensures accepted == Fits(old(pending), delta)
      ensures pending == if accepted then Applied(old(pending), delta) else old(pending)
    {
      if delta.index !in pending && |pending| >= MAX_PENDING_CALLS {
        return false;
      }
      var current := if delta.index in pending then Some(pending[delta.index]) else None;
      if delta.id.Some? && Utf8.Size(delta.id.value) > MAX_FIELD_BYTES {
        return false;
      }
      if delta.name.Some?
         && (if current.Some? then Utf8.Size(current.value.name) + Utf8.Size(delta.name.value)
             else Utf8.Size(delta.name.value)) > MAX_FIELD_BYTES
      {
        return false;
      }
      if delta.arguments.Some?
         && (if current.Some? then Utf8.Size(current.value.arguments) + Utf8.Size(delta.arguments.value)
             else Utf8.Size(delta.arguments.value)) > MAX_FIELD_BYTES
      {
        return false;
      }
      var entry := if current.Some? then current.value else EMPTY_CALL;
      if delta.id.Some? {
        entry := entry.(id := delta.id);
      }
      if delta.name.Some? {
        entry := entry.(name := entry.name + delta.name.value);
      }
      if delta.arguments.Some? {
        entry := entry.(arguments := entry.arguments + delta.arguments.value);
      }
      assert entry == Merged(CallAt(pending, delta.index), delta);
      pending := pending[delta.index := entry];
      return true;
    }
  }

  // ---------- Whole streams ----------

  function Assembled(deltas: seq<Delta>): Pending {
    if deltas == [] then map[] else Applied(Assembled(deltas[..|deltas| - 1]), deltas[|deltas| - 1])
  }

  /** Every fragment of the stream is accepted when its turn comes. */
  predicate Accepted(deltas: seq<Delta>) {
    deltas == [] || (Accepted(deltas[..|deltas| - 1]) && Fits(Assembled(deltas[..|deltas| - 1]), deltas[|deltas| - 1]))
  }

  /** The fragments of one call, in arrival order. */
  function FragmentsOf(deltas: seq<Delta>, index: nat): seq<Delta> {
    if deltas == [] then []
    else
      FragmentsOf(deltas[..|deltas| - 1], index)
      + (if deltas[|deltas| - 1].index == index then [deltas[|deltas| - 1]] else [])
  }

  function NameOf(fragments: seq<Delta>): string {
    if fragments == [] then "" else NameOf(fragments[..|fragments| - 1]) + TextOf(fragments[|fragments| - 1].name)
  }

  function ArgumentsOf(fragments: seq<Delta>): string {
    if fragments == [] then ""
    else ArgumentsOf(fragments[..|fragments| - 1]) + TextOf(fragments[|fragments| - 1].arguments)
  }

  function IdOf(fragments: seq<Delta>): Option<string> {
    if fragments == [] then None
    else if fragments[|fragments| - 1].id.Some? then fragments[|fragments| - 1].id
    else IdOf(fragments[..|fragments| - 1])
  }

  lemma FragmentsSnoc(front: seq<Delta>, last: Delta)
    ensures NameOf(front + [last]) == NameOf(front) + (if last.name.Some? then last.name.value else "")
    ensures ArgumentsOf(front + [last]) ==
            ArgumentsOf(front) + (if last.arguments.Some? then last.arguments.value else "")
    ensures NameOf([]) == "" && ArgumentsOf([]) == ""
  {
    assert (front + [last])[..|front|] == front;
  }

  lemma Regroup(a: string, b: string, c: string)
    ensures a + b + c == a + (b + c)
  {
  }

  /** Names and arguments are joined in the order their fragments arrive. */
  lemma {:induction false} FragmentsJoin(first: seq<Delta>, rest: seq<Delta>)
    ensures NameOf(first + rest) == NameOf(first) + NameOf(rest)
    ensures ArgumentsOf(first + rest) == ArgumentsOf(first) + ArgumentsOf(rest)
  {
    hide NameOf, ArgumentsOf;
    if rest == [] {
      assert first + rest == first;
      FragmentsSnoc([], Delta(0, None, None, None));
    } else {
      var front, last := rest[..|rest| - 1], rest[|rest| - 1];
      FragmentsJoin(first, front);
      FragmentsSnoc(first + front, last);
      FragmentsSnoc(front, last);
      assert rest == front + [last] && first + rest == first + front + [last];
      Regroup(NameOf(first), NameOf(front), if last.name.Some? then last.name.value else "");
      Regroup(ArgumentsOf(first), ArgumentsOf(front), if last.arguments.Some? then last.arguments.value else "");
    }
  }

  /** The id of a call is the last one that was sent for it. */
  lemma {:induction false} IdMeans(fragments: seq<Delta>)
    ensures IdOf(fragments).None? <==> forall i :: 0 <= i < |fragments| ==> fragments[i].id.None?
    ensures IdOf(fragments).Some? ==>
              exists i :: 0 <= i < |fragments| && fragments[i].id == IdOf(fragments)
                && forall j :: i < j < |fragments| ==> fragments[j].id.None?
  {
    if fragments != [] && fragments[|fragments| - 1].id.None? {
      var front := fragments[..|fragments| - 1];
      IdMeans(front);
      assert forall i :: 0 <= i < |front| ==> front[i] == fragments[i];
      if IdOf(front).Some? {
        var i :| 0 <= i < |front| && front[i].id == IdOf(front) && forall j :: i < j < |front| ==> front[j].id.None?;
        assert fragments[i].id == IdOf(fragments);
      }
    } else if fragments != [] {
      assert fragments[|fragments| - 1].id == IdOf(fragments);
    }
  }

  function Indices(deltas: seq<Delta>): set<nat> {
    set d | d in deltas :: d.index
  }

  lemma IndicesSnoc(deltas: seq<Delta>)
    requires deltas != []
    ensures Indices(deltas) == Indices(deltas[..|deltas| - 1]) + {deltas[|deltas| - 1].index}
  {
    assert deltas == deltas[..|deltas| - 1] + [deltas[|deltas| - 1]];
  }

  lemma {:induction false} AssembledKeys(deltas: seq<Delta>)
    ensures Assembled(deltas).Keys == Indices(deltas)
  {
    if deltas != [] {
      AssembledKeys(deltas[..|deltas| - 1]);
      IndicesSnoc(deltas);
    }
  }

  lemma {:induction false} FragmentsExist(deltas: seq<Delta>, index: nat)
    ensures index in Indices(deltas) <==> FragmentsOf(deltas, index) != []
  {
    if deltas != [] {
      FragmentsExist(deltas[..|deltas| - 1], index);
      IndicesSnoc(deltas);
    }
  }

  function Folded(fragments: seq<Delta>): PendingCall {
    PendingCall(IdOf(fragments), NameOf(fragments), ArgumentsOf(fragments))
  }

  lemma {:induction false} FoldedSnoc(fragments: seq<Delta>, last: Delta)
    ensures Folded(fragments + [last]) == Merged(Folded(fragments), last)
  {
    assert (fragments + [last])[..|fragments|] == fragments;
  }

  /** What has been assembled depends only on each call's own fragments: their concatenations, and the
      last id among them. */
  lemma {:induction false} AssembledMeans(deltas: seq<Delta>, index: nat)
    ensures CallAt(Assembled(deltas), index) == Folded(FragmentsOf(deltas, index))
  {
    hide Folded, Merged;
    if deltas == [] {
      NothingFolded();
    } else {
      var front, last := deltas[..|deltas| - 1], deltas[|deltas| - 1];
      AssembledMeans(front, index);
      if last.index == index {
        FoldedSnoc(FragmentsOf(front, index), last);
      } else {
        assert FragmentsOf(deltas, index) == FragmentsOf(front, index);
      }
    }
  }

  lemma NothingFolded()
    ensures Folded([]) == EMPTY_CALL
  {
  }

  /** A call's fields and ids are within the field limit. */
  predicate WithinLimits(fragments: seq<Delta>) {
    && Utf8.Size(NameOf(fragments)) <= MAX_FIELD_BYTES && Utf8.Size(ArgumentsOf(fragments)) <= MAX_FIELD_BYTES
    && forall i :: 0 <= i < |fragments| && fragments[i].id.Some? ==> Utf8.Size(fragments[i].id.value) <= MAX_FIELD_BYTES
  }

  lemma {:induction false} WithinLimitsSnoc(front: seq<Delta>, last: Delta)
    ensures WithinLimits(front + [last]) <==>
            && WithinLimits(front) && (last.id.Some? ==> Utf8.Size(last.id.value) <= MAX_FIELD_BYTES)
            && (last.name.Some? ==> Utf8.Size(NameOf(front)) + Utf8.Size(last.name.value) <= MAX_FIELD_BYTES)
            && (last.arguments.Some? ==>
                Utf8.Size(ArgumentsOf(front)) + Utf8.Size(last.arguments.value) <= MAX_FIELD_BYTES)
  {
    hide Utf8.Size, IdOf;
    var all := front + [last];
    assert all[..|front|] == front;
    Utf8.SizeAppend(NameOf(front), TextOf(last.name));
    Utf8.SizeAppend(ArgumentsOf(front), TextOf(last.arguments));
    NoBytes();
    assert all[|front|] == last;
    assert forall i :: 0 <= i < |front| ==> all[i] == front[i];
  }

  lemma NoBytes()
    ensures Utf8.Size("") == 0
  {
  }

  ghost predicate AllWithinLimits(deltas: seq<Delta>) {
    |Indices(deltas)| <= MAX_PENDING_CALLS && forall index :: WithinLimits(FragmentsOf(deltas, index))
  }

  /** A stream is accepted exactly when, taken as a whole, it names at most 32 calls and each call's
      fields are within the field limit: the order of arrival does not matter. */
  lemma {:induction false} AcceptedMeans(deltas: seq<Delta>)
    ensures Accepted(deltas) <==> AllWithinLimits(deltas)
  {
    hide WithinLimits, Utf8.Size, NameOf, ArgumentsOf, IdOf;
    if deltas == [] {
      NothingWithinLimits();
      assert forall index :: FragmentsOf(deltas, index) == [];
    } else {
      AcceptedMeans(deltas[..|deltas| - 1]);
      AcceptedStep(deltas);
    }
  }

  lemma NothingWithinLimits()
    ensures WithinLimits([]) && Indices([]) == {}
  {
  }

  lemma {:induction false} AcceptedStep(deltas: seq<Delta>)
    requires deltas != []
    ensures var front, last := deltas[..|deltas| - 1], deltas[|deltas| - 1];
            AllWithinLimits(deltas) <==> AllWithinLimits(front) && Fits(Assembled(front), last)
  {
    hide WithinLimits, Utf8.Size, NameOf, ArgumentsOf, IdOf, Assembled;
    var front, last := deltas[..|deltas| - 1], deltas[|deltas| - 1];
    AssembledMeans(front, last.index);
    AssembledKeys(front);
    assert |Assembled(front)| == |Assembled(front).Keys|;
    IndicesSnoc(deltas);
    WithinLimitsSnoc(FragmentsOf(front, last.index), last);
    forall index ensures FragmentsOf(deltas, index) ==
        FragmentsOf(front, index) + (if last.index == index then [last] else []) {
    }
    assert FragmentsOf(deltas, last.index) == FragmentsOf(front, last.index) + [last];
    forall index | index != last.index ensures FragmentsOf(deltas, index) == FragmentsOf(front, index) {
    }
  }

  lemma {:induction false} AcceptedPrefix(deltas: seq<Delta>, n: nat)
    requires Accepted(deltas) && n <= |deltas|
    ensures Accepted(deltas[..n])
  {
    if n == |deltas| {
      assert deltas[..n] == deltas;
    } else {
      AcceptedPrefix(deltas[..|deltas| - 1], n);
      assert deltas[..|deltas| - 1][..n] == deltas[..n];
    }
  }

  /** Interleaving does not matter: a stream with the same fragments per call, however they are mixed,
      is accepted too and assembles the same calls. */
  lemma InterleavingIndependent(a: seq<Delta>, b: seq<Delta>)
    requires Accepted(a) && forall index :: FragmentsOf(a, index) == FragmentsOf(b, index)
    ensures Accepted(b) && Assembled(a) == Assembled(b)
  {
    hide WithinLimits, FragmentsOf, Accepted, Assembled, IdOf, NameOf, ArgumentsOf;
    AcceptedMeans(a);
    AcceptedMeans(b);
    AssembledKeys(a);
    AssembledKeys(b);
    forall index: nat ensures index in Assembled(a) <==> index in Assembled(b)
                      ensures CallAt(Assembled(a), index) == CallAt(Assembled(b), index)
                      ensures index in Indices(a) <==> index in Indices(b)
    {
      AssembledMeans(a, index);
      AssembledMeans(b, index);
      FragmentsExist(a, index);
      FragmentsExist(b, index);
      assert FragmentsOf(a, index) == FragmentsOf(b, index);
    }
    assert Indices(a) == Indices(b);
    SamePending(Assembled(a), Assembled(b));
  }

  lemma SamePending(a: Pending, b: Pending)
    requires forall index: nat :: (index in a <==> index in b) && CallAt(a, index) == CallAt(b, index)
    ensures a == b
  {
    forall index | index in a ensures a[index] == b[index] {
      assert CallAt(a, index) == CallAt(b, index);
    }
  }

  /** The budget always holds: at most 32 calls, and no accumulated field over 64 KiB. */
  lemma BudgetHolds(deltas: seq<Delta>, index: nat)
    requires Accepted(deltas)
    ensures |Assembled(deltas)| <= 32
    ensures var call := CallAt(Assembled(deltas), index);
            Utf8.Size(call.name) <= 65_536 && Utf8.Size(call.arguments) <= 65_536
  {
    hide Utf8.Size;
    AcceptedMeans(deltas);
    AssembledMeans(deltas, index);
    AssembledKeys(deltas);
    assert WithinLimits(FragmentsOf(deltas, index));
    assert |Assembled(deltas)| == |Assembled(deltas).Keys|;
  }

  /** The limits of one call in numbers, and of the ids of a stream. */
  ghost predicate FieldsFit(deltas: seq<Delta>, index: nat) {
    && Utf8.Size(NameOf(FragmentsOf(deltas, index))) <= 65_536
    && Utf8.Size(ArgumentsOf(FragmentsOf(deltas, index))) <= 65_536
  }

  ghost predicate IdsFit(deltas: seq<Delta>) {
    forall i :: 0 <= i < |deltas| && deltas[i].id.Some? ==> Utf8.Size(deltas[i].id.value) <= 65_536
  }

  /** The limits in numbers: 32 calls, and 65,536 bytes for each name, each argument text and each id. */
  lemma LimitsMean(deltas: seq<Delta>)
    ensures Accepted(deltas) <==>
            |Indices(deltas)| <= 32 && (forall index :: FieldsFit(deltas, index)) && IdsFit(deltas)
  {
    hide Accepted, Utf8.Size, NameOf, ArgumentsOf, FragmentsOf;
    AcceptedMeans(deltas);
    if AllWithinLimits(deltas) {
      forall index ensures FieldsFit(deltas, index) {
        assert WithinLimits(FragmentsOf(deltas, index));
      }
      forall i | 0 <= i < |deltas| && deltas[i].id.Some? ensures Utf8.Size(deltas[i].id.value) <= 65_536 {
        DeltaIsFragment(deltas, i);
        assert WithinLimits(FragmentsOf(deltas, deltas[i].index));
      }
    }
    if (forall index :: FieldsFit(deltas, index)) && IdsFit(deltas) {
      forall index ensures WithinLimits(FragmentsOf(deltas, index)) {
        var own := FragmentsOf(deltas, index);
        assert FieldsFit(deltas, index);
        forall i | 0 <= i < |own| && own[i].id.Some? ensures Utf8.Size(own[i].id.value) <= 65_536 {
          FragmentsAreDeltas(deltas, index, i);
        }
      }
    }
  }

  lemma {:induction false} FragmentsAreDeltas(deltas: seq<Delta>, index: nat, i: nat)
    requires i < |FragmentsOf(deltas, index)|
    ensures FragmentsOf(deltas, index)[i] in deltas
  {
    var front := deltas[..|deltas| - 1];
    if i < |FragmentsOf(front, index)| {
      FragmentsAreDeltas(front, index, i);
    }
  }

  lemma {:induction false} DeltaIsFragment(deltas: seq<Delta>, i: nat)
    requires i < |deltas|
    ensures deltas[i] in FragmentsOf(deltas, deltas[i].index)
  {
    if i < |deltas| - 1 {
      DeltaIsFragment(deltas[..|deltas| - 1], i);
    }
  }

  // ---------- Finishing ----------

  /** A requested call as handed to the run, with its arguments parsed. */
  datatype AssembledCall<J> = AssembledCall(id: string, name: string, arguments: J)

  /** The JSON parser, which may reject a text, and the empty object that stands for rejected arguments. */
  datatype Parser<J> = Parser(parse: string -> Option<J>, empty: J) {
    function Read(text: string): J {
      if Trim(text) == "" || parse(text).None? then empty else parse(text).value
    }
  }

  function Least(s: set<nat>): (n: nat)
    requires s != {}
    ensures n in s && forall m :: m in s ==> n <= m
  {
    LeastExists(s);
    var n :| n in s && forall m :: m in s ==> n <= m;
    n
  }

  lemma LeastExists(s: set<nat>)
    requires s != {}
    ensures exists n :: n in s && forall m :: m in s ==> n <= m
  {
    var n := FindLeast(s);
  }

  lemma {:induction false} FindLeast(s: set<nat>) returns (n: nat)
    requires s != {}
    ensures n in s && forall m :: m in s ==> n <= m
    decreases |s|
  {
    var first :| first in s;
    n := first;
    if s - {first} != {} {
      var least := FindLeast(s - {first});
      n := if least < first then least else first;
    }
    assert forall m :: m in s ==> m == first || m in s - {first};
  }

  /** The keys of a map in increasing order, as a `BTreeMap` iterates. */
  function Sorted(keys: set<nat>): seq<nat>
    decreases |keys|
  {
    if keys == {} then [] else var n := Least(keys); [n] + Sorted(keys - {n})
  }

  function FinishOne<J>(call: PendingCall, position: nat, json: Parser<J>): AssembledCall<J> {
    AssembledCall(if call.id.Some? then call.id.value else "call-" + Decimal(position), call.name,
                  json.Read(call.arguments))
  }

  /** The requested calls in index order. */
  function Finish<J>(pending: Pending, json: Parser<J>): seq<AssembledCall<J>> {
    var keys := Sorted(pending.Keys);
    SortedMeans(pending.Keys);
    seq(|keys|, i requires 0 <= i < |keys| => FinishOne(CallAt(pending, keys[i]), i, json))
  }

  lemma {:induction false} SortedMeans(keys: set<nat>)
    ensures |Sorted(keys)| == |keys|
    ensures forall n :: n in Sorted(keys) <==> n in keys
    ensures forall i, j :: 0 <= i < j < |Sorted(keys)| ==> Sorted(keys)[i] < Sorted(keys)[j]
    decreases |keys|
  {
    if keys != {} {
      var n := Least(keys);
      var rest := Sorted(keys - {n});
      SortedMeans(keys - {n});
      assert |keys| == 1 + |keys - {n}|;
      forall j | 0 <= j < |rest| ensures n < rest[j] {
        assert rest[j] in rest;
      }
    }
  }

  /** The finished calls are the stream's calls in index order: the i-th has the i-th smallest index, the
      concatenated name of that index, its last id or a made-up one, and what its concatenated arguments parse
      to, or the empty object when they are blank or rejected. */
  lemma FinishMeans<J>(deltas: seq<Delta>, json: Parser<J>, i: nat)
    requires i < |Indices(deltas)|
    ensures |Finish(Assembled(deltas), json)| == |Indices(deltas)| == |Sorted(Indices(deltas))|
    ensures var own, call := FragmentsOf(deltas, Sorted(Indices(deltas))[i]), Finish(Assembled(deltas), json)[i];
            && call.name == NameOf(own)
            && call.id == (if IdOf(own).Some? then IdOf(own).value else "call-" + Decimal(i))
            && call.arguments == (if Trim(ArgumentsOf(own)) == "" || json.parse(ArgumentsOf(own)).None? then json.empty
                                  else json.parse(ArgumentsOf(own)).value)
  {
    hide Decimal, Assembled, FragmentsOf, Trim;
    SortedMeans(Indices(deltas));
    AssembledKeys(deltas);
    AssembledMeans(deltas, Sorted(Indices(deltas))[i]);
  }

  /** A turn's tool-call fragments: the finished calls, or nothing once a fragment is rejected. */
  method AssembleCalls<J>(deltas: seq<Delta>, json: Parser<J>) returns (calls: Option<seq<AssembledCall<J>>>)
    ensures calls == if Accepted(deltas) then Some(Finish(Assembled(deltas), json)) else None
  {
    hide Fits, Finish;
    var assembler := new ToolCallAssembler();
    for i := 0 to |deltas|
      invariant assembler.pending == Assembled(deltas[..i]) && Accepted(deltas[..i])
    {
      assert deltas[..i + 1][..i] == deltas[..i];
      var accepted := assembler.Apply(deltas[i]);
      if !accepted {
        if Accepted(deltas) {
          AcceptedPrefix(deltas, i + 1);
        }
        return None;
      }
    }
    assert deltas[..|deltas|] == deltas;
    return Some(Finish(assembler.pending, json));
  }
}
