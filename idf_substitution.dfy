/** The substitution requests of epw/core.py: `sub_one_field` (unwrap
    one-element sequences in the caller's map, insist on scalars, apply
    `re_substitute` entry by entry to the IDF text) and the batch split of
    `sub_run`.  Reading the IDF file and running EnergyPlus are not part of
    this model: the IDF text is a parameter, and a run is represented by the
    text it would be given. */
module IdfSubstitution {
  import opened Wrappers
  import IdfRegex

  /** The key of a substitution: IDF object type, object name, field name. */
  datatype FieldKey = FieldKey(obj: string, name: string, field: string)

  /** The Python values a substitution map may hold.  `Float` carries the
      text `str()` gives for it; `Other` stands for every other type
      (None, dict, numpy scalars, ...). */
  datatype Value =
    | Int(i: int)
    | Float(repr: string)
    | Bool(b: bool)
    | Str(s: string)
    | List(items: seq<Value>)
    | Tuple(items: seq<Value>)
    | Other

  datatype Entry = Entry(key: FieldKey, value: Value)

  datatype SubstitutionError =
    | EmptyRequest            // `min()` of no lengths in `sub_run`
    | InconsistentBatchSize   // `assert min(val_len) == max(val_len)`
    | NotScalar               // `assert all_scalar` in `sub_one_field`

  /** `type(v) in (list, tuple)`. */
  predicate IsSeq(v: Value)
  {
    v.List? || v.Tuple?
  }

  /** `type(v) in (int, float, bool, str)`. */
  predicate IsScalar(v: Value)
  {
    v.Int? || v.Float? || v.Bool? || v.Str?
  }

  /** A one-element list or tuple is replaced by its element. */
  function Unwrap(v: Value): Value
  {
    if IsSeq(v) && |v.items| == 1 then v.items[0] else v
  }

  /** The map after the unwrapping loop of `sub_one_field`: same keys in the
      same order, every value unwrapped. */
  function UnwrapAll(d: seq<Entry>): (r: seq<Entry>)
    ensures |r| == |d|
    ensures forall k :: 0 <= k < |d| ==> r[k].key == d[k].key
  {
    seq(|d|, k requires 0 <= k < |d| => Entry(d[k].key, Unwrap(d[k].value)))
  }

  predicate AllScalar(d: seq<Entry>)
  {
    forall k :: 0 <= k < |d| ==> IsScalar(d[k].value)
  }

  // ---------------------------------------------------------------------
  // str(value)

  function DigitChar(n: nat): char
    requires n < 10
  {
    "0123456789"[n]
  }

  predicate IsDigit(ch: char)
  {
    '0' as int <= ch as int <= '9' as int
  }

  /** Decimal notation of a natural number, as `str` writes it. */
  function NatToString(n: nat): (r: string)
    ensures r != [] && forall q :: 0 <= q < |r| ==> IsDigit(r[q])
    decreases n
  {
    if n < 10 then [DigitChar(n)] else NatToString(n / 10) + [DigitChar(n % 10)]
  }

  /** The number a string of decimal digits denotes. */
  function DigitsValue(s: string): nat
    requires forall q :: 0 <= q < |s| ==> IsDigit(s[q])
    decreases |s|
  {
    if s == [] then 0
    else
      var c := s[|s| - 1];
      assert IsDigit(c);
      DigitsValue(s[..|s| - 1]) * 10 + (c as int - '0' as int)
  }

  lemma {:induction false} NatToStringValue(n: nat)
    ensures DigitsValue(NatToString(n)) == n
    decreases n
  {
    var r := NatToString(n);
    if n < 10 {
      assert r[..|r| - 1] == [];
    } else {
      NatToStringValue(n / 10);
      assert r[..|r| - 1] == NatToString(n / 10);
    }
  }

  /** `str(i)` for an `int`. */
  function IntToString(i: int): string
  {
    if i < 0 then "-" + NatToString(-i) else NatToString(i)
  }

  /** `int(s)` restricted to an optional minus sign and decimal digits. */
  function ParseInt(s: string): (r: Option<int>)
    ensures r.Some? ==> s != []
  {
    if s != [] && s[0] == '-' then
      var t := s[1..];
      if t != [] && forall q :: 0 <= q < |t| ==> IsDigit(t[q]) then
        var n: int := DigitsValue(t);
        Some(-n)
      else None
    else if s != [] && forall q :: 0 <= q < |s| ==> IsDigit(s[q]) then Some(DigitsValue(s))
    else None
  }

  /** A run of digits parses as its value. */
  lemma ParseDigits(t: string)
    requires t != [] && forall q :: 0 <= q < |t| ==> IsDigit(t[q])
    ensures ParseInt(t) == Some(DigitsValue(t))
  {
    assert t[0] != '-';
  }

  /** A minus sign and a run of digits parse as the negated value. */
  lemma ParseNegatedDigits(t: string)
    requires t != [] && forall q :: 0 <= q < |t| ==> IsDigit(t[q])
    ensures ParseInt("-" + t) == Some(-(DigitsValue(t) as int))
  {
    var s := "-" + t;
    assert s[0] == '-' && s[1..] == t;
  }

  /** `int(str(i)) == i`. */
  lemma IntToStringParses(i: int)
    ensures ParseInt(IntToString(i)) == Some(i)
  {
    var s := IntToString(i);
    var t := NatToString(if i < 0 then -i else i);
    NatToStringValue(if i < 0 then -i else i);
    if i < 0 {
      assert s == "-" + t;
      ParseNegatedDigits(t);
    } else {
      assert s == t;
      ParseDigits(t);
    }
  }

  /** `str(value)` for the scalar types. */
  function ToText(v: Value): string
    requires IsScalar(v)
  {
    match v
    case Int(i) => IntToString(i)
    case Float(repr) => repr
    case Bool(b) => if b then "True" else "False"
    case Str(s) => s
  }

  /** The text of an int or a bool reads back as one whole value token of
      an IDF field. */
  lemma NumericTextIsToken(v: Value)
    requires v.Int? || v.Bool?
    ensures IdfRegex.IsToken(ToText(v))
  {
    if v.Int? && v.i < 0 {
      var r := ToText(v);
      forall q | 1 <= q < |r| ensures !IdfRegex.IsDelim(r[q]) {
        assert r[q] == NatToString(-v.i)[q - 1];
      }
    }
  }

  // ---------------------------------------------------------------------
  // sub_one_field

  /** One call of `re_substitute` for one entry. */
  function SubstituteEntry(text: string, e: Entry): string
    requires IsScalar(e.value)
  {
    IdfRegex.ReSubstitute(text, e.key.obj, e.key.name, e.key.field, ToText(e.value))
  }

  /** The loop `for (obj, name, field), value in sub_dict.items()`: the
      first entry is substituted into the text, the remaining entries into
      what it produced. */
  function ApplyAll(text: string, d: seq<Entry>): string
    requires AllScalar(d)
    decreases |d|
  {
    if d == [] then text else ApplyAll(SubstituteEntry(text, d[0]), d[1..])
  }

  /** Substituting a map in two parts, one after the other, is substituting
      the whole map. */
  lemma {:induction false} ApplyAllAppend(text: string, d1: seq<Entry>, d2: seq<Entry>)
    requires AllScalar(d1) && AllScalar(d2)
    ensures AllScalar(d1 + d2)
    ensures ApplyAll(text, d1 + d2) == ApplyAll(ApplyAll(text, d1), d2)
    decreases |d1|
  {
    var d := d1 + d2;
    assert AllScalar(d) by {
      forall k | 0 <= k < |d| ensures IsScalar(d[k].value) {
        if k < |d1| { assert d[k] == d1[k]; } else { assert d[k] == d2[k - |d1|]; }
      }
    }
    if d1 != [] {
      assert d[0] == d1[0] && d[1..] == d1[1..] + d2;
      ApplyAllAppend(SubstituteEntry(text, d1[0]), d1[1..], d2);
    } else {
      assert d == d2;
    }
  }

  /** What `sub_one_field` returns for a map `d` and the IDF text `text`. */
  function SubOneFieldText(text: string, d: seq<Entry>): (r: Result<string, SubstitutionError>)
    ensures r.Success? <==> forall k :: 0 <= k < |d| ==> IsScalar(Unwrap(d[k].value))
    ensures d == [] ==> r == Success(text)
  {
    var u := UnwrapAll(d);
    if AllScalar(u) then Success(ApplyAll(text, u)) else Failure(NotScalar)
  }

  /** A map of one scalar entry is one call of `re_substitute`. */
  lemma SingleEntryText(text: string, e: Entry)
    requires IsScalar(e.value)
    ensures SubOneFieldText(text, [e]) == Success(SubstituteEntry(text, e))
  {
    var u := UnwrapAll([e]);
    assert u == [e] && u[1..] == [];
    assert ApplyAll(text, u) == ApplyAll(SubstituteEntry(text, e), []);
  }

  /** Round trip for one integer or boolean entry: after `sub_one_field`,
      the field it names reads back as `str(value)`. */
  lemma {:induction false} SingleEntryReadsBack(text: string, key: FieldKey, v: Value)
    requires v.Int? || v.Bool?
    requires IdfRegex.Locate(text, key.obj, key.name, key.field).Some?
    requires '\n' !in key.field
    ensures SubOneFieldText(text, [Entry(key, v)]).Success?
    ensures IdfRegex.Locate(SubOneFieldText(text, [Entry(key, v)]).value, key.obj, key.name, key.field)
            == Some(ToText(v))
  {
    var e := Entry(key, v);
    SingleEntryText(text, e);
    NumericTextIsToken(v);
    IdfRegex.LocateAfterSubstitute(text, key.obj, key.name, key.field, ToText(v));
  }

  /** The dictionary `sub_dict` of the caller, which `sub_one_field` updates
      in place. */
  class SubstitutionMap {
    var entries: seq<Entry>

    constructor (entries: seq<Entry>)
      ensures this.entries == entries
    {
      this.entries := entries;
    }
  }

  /** `sub_one_field(orig_idf_path, sub_dict)` with the file's text given:
      unwraps the caller's map in place, then fails unless every value is a
      scalar, then substitutes every entry in order. */
  method SubOneField(d: SubstitutionMap, text: string) returns (r: Result<string, SubstitutionError>)
    modifies d
    ensures d.entries == UnwrapAll(old(d.entries))
    ensures r == SubOneFieldText(text, old(d.entries))
  {
    var k := 0;
    while k < |d.entries|
      invariant 0 <= k <= |d.entries| == |old(d.entries)|
      invariant forall q :: 0 <= q < k ==> d.entries[q] == Entry(old(d.entries)[q].key, Unwrap(old(d.entries)[q].value))
      invariant forall q :: k <= q < |d.entries| ==> d.entries[q] == old(d.entries)[q]
    {
      var e := d.entries[k];
      if IsSeq(e.value) && |e.value.items| == 1 {
        d.entries := d.entries[k := Entry(e.key, e.value.items[0])];
      }
      k := k + 1;
    }
    assert d.entries == UnwrapAll(old(d.entries));

    var entries := d.entries;
    k := 0;
    while k < |entries|
      invariant 0 <= k <= |entries|
      invariant forall q :: 0 <= q < k ==> IsScalar(entries[q].value)
    {
      if !IsScalar(entries[k].value) {
        return Failure(NotScalar);
      }
      k := k + 1;
    }

    var idf := text;
    k := 0;
    while k < |entries|
      invariant 0 <= k <= |entries|
      invariant ApplyAll(idf, entries[k..]) == ApplyAll(text, entries)
    {
      assert entries[k..][0] == entries[k] && entries[k..][1..] == entries[k + 1..];
      idf := SubstituteEntry(idf, entries[k]);
      k := k + 1;
    }
    assert entries[k..] == [];
    return Success(idf);
  }

  // ---------------------------------------------------------------------
  // sub_run

  /** `type(v) in (list, tuple) and len(v) > 1`. */
  predicate IsBatchValue(v: Value)
  {
    IsSeq(v) && |v.items| > 1
  }

  predicate AllBatch(d: seq<Entry>)
  {
    forall k :: 0 <= k < |d| ==> IsBatchValue(d[k].value)
  }

  predicate SameLength(d: seq<Entry>, n: nat)
  {
    forall k :: 0 <= k < |d| ==> IsSeq(d[k].value) && |d[k].value.items| == n
  }

  /** `[dict(zip(sub_dict, t)) for t in zip(*sub_dict.values())]`: the i-th
      request maps every key to the i-th element of its value. */
  function Requests(d: seq<Entry>, n: nat): (r: seq<seq<Entry>>)
    requires SameLength(d, n)
    ensures |r| == n && forall i :: 0 <= i < n ==> |r[i]| == |d|
  {
    seq(n, i requires 0 <= i < n => seq(|d|, k requires 0 <= k < |d| => Entry(d[k].key, d[k].value.items[i])))
  }

  /** The requests taken back column by column give the original values. */
  lemma RequestsReassemble(d: seq<Entry>, n: nat, k: nat)
    requires SameLength(d, n) && k < |d|
    ensures var r := Requests(d, n);
            && (forall i :: 0 <= i < n ==> r[i][k].key == d[k].key)
            && seq(n, i requires 0 <= i < n => r[i][k].value) == d[k].value.items
  {
  }

  /** How `sub_run` dispatches a map: one run per position of the value
      sequences when every value is a sequence of two or more, one run with
      the map itself otherwise. */
  datatype Plan = Single(request: seq<Entry>) | Batch(requests: seq<seq<Entry>>)

  function PlanRuns(d: seq<Entry>): (r: Result<Plan, SubstitutionError>)
    ensures r == Failure(EmptyRequest) <==> d == []
    ensures r.Success? && r.value.Single? <==> !AllBatch(d)
    ensures r.Success? && r.value.Single? ==> r.value.request == d
    ensures r == Failure(InconsistentBatchSize) <==> d != [] && AllBatch(d) && !SameLength(d, |d[0].value.items|)
    ensures r.Success? && r.value.Batch? ==> |r.value.requests| > 1
  {
    if !AllBatch(d) then Success(Single(d))
    else if d == [] then Failure(EmptyRequest)
    else if !SameLength(d, |d[0].value.items|) then Failure(InconsistentBatchSize)
    else Success(Batch(Requests(d, |d[0].value.items|)))
  }

  /** What one EnergyPlus run would be given: the substituted IDF text. */
  datatype RunInputs = OneRun(text: string) | ManyRuns(texts: seq<string>)

  /** The substituted texts of the batch requests, in order; the first
      request that fails makes the whole call fail. */
  function BatchTexts(text: string, requests: seq<seq<Entry>>): (r: Result<seq<string>, SubstitutionError>)
    ensures r.Success? ==> |r.value| == |requests|
    ensures r.Success? ==> forall i :: 0 <= i < |requests| ==> SubOneFieldText(text, requests[i]) == Success(r.value[i])
    ensures r.Failure? ==> exists i :: 0 <= i < |requests| && SubOneFieldText(text, requests[i]).Failure?
    decreases |requests|
  {
    if requests == [] then Success([])
    else
      match BatchTexts(text, requests[..|requests| - 1])
      case Failure(e) => Failure(e)
      case Success(ts) =>
        match SubOneFieldText(text, requests[|requests| - 1])
        case Failure(e) => Failure(e)
        case Success(t) => Success(ts + [t])
  }

  /** `sub_run(orig_idf_path, weather_file_path, sub_dict)` with the file's
      text given and every run replaced by the text it would be given. */
  function SubRunInputs(text: string, d: seq<Entry>): Result<RunInputs, SubstitutionError>
  {
    match PlanRuns(d)
    case Failure(e) => Failure(e)
    case Success(Single(req)) =>
      (match SubOneFieldText(text, req)
       case Failure(e) => Failure(e)
       case Success(t) => Success(OneRun(t)))
    case Success(Batch(reqs)) =>
      (match BatchTexts(text, reqs)
       case Failure(e) => Failure(e)
       case Success(ts) => Success(ManyRuns(ts)))
  }

  /** A batch of n requests yields n texts, the i-th being `sub_one_field`
      of the i-th column of the map. */
  lemma BatchRunsColumns(text: string, d: seq<Entry>)
    requires d != [] && AllBatch(d) && SameLength(d, |d[0].value.items|)
    requires SubRunInputs(text, d).Success?
    ensures var n := |d[0].value.items|;
            && SubRunInputs(text, d).value.ManyRuns?
            && |SubRunInputs(text, d).value.texts| == n
            && forall i :: 0 <= i < n ==>
                 SubOneFieldText(text, Requests(d, n)[i]) == Success(SubRunInputs(text, d).value.texts[i])
  {
  }

  /** `sub_run`: the single branch hands the caller's map itself to
      `sub_one_field`, which unwraps it in place; the batch branch builds a
      fresh map per request and leaves the caller's map alone. */
  method SubRun(d: SubstitutionMap, text: string) returns (r: Result<RunInputs, SubstitutionError>)
    modifies d
    ensures r == SubRunInputs(text, old(d.entries))
    ensures !AllBatch(old(d.entries)) ==> d.entries == UnwrapAll(old(d.entries))
    ensures AllBatch(old(d.entries)) ==> d.entries == old(d.entries)
  {
    var plan := PlanRuns(d.entries);
    if plan.Failure? {
      return Failure(plan.error);
    }
    match plan.value
    case Single(req) =>
      var t := SubOneField(d, text);
      if t.Failure? {
        return Failure(t.error);
      }
      return Success(OneRun(t.value));
    case Batch(reqs) =>
      var ts := RunBatch(text, reqs);
      if ts.Failure? {
        return Failure(ts.error);
      }
      return Success(ManyRuns(ts.value));
  }

  /** The list comprehension of `sub_run` over the batch requests, each
      request in a fresh map of its own. */
  method RunBatch(text: string, reqs: seq<seq<Entry>>) returns (r: Result<seq<string>, SubstitutionError>)
    ensures r == BatchTexts(text, reqs)
  {
    var texts: seq<string> := [];
    var i := 0;
    while i < |reqs|
      invariant 0 <= i <= |reqs|
      invariant BatchTexts(text, reqs[..i]) == Success(texts)
    {
      assert reqs[..i + 1][..i] == reqs[..i];
      var one := new SubstitutionMap(reqs[i]);
      var t := SubOneField(one, text);
      if t.Failure? {
        BatchFailurePropagates(text, reqs, i + 1);
        return Failure(t.error);
      }
      texts := texts + [t.value];
      i := i + 1;
    }
    assert reqs[..|reqs|] == reqs;
    return Success(texts);
  }

  /** A failing prefix makes the whole batch fail with the same error. */
  lemma {:induction false} BatchFailurePropagates(text: string, requests: seq<seq<Entry>>, n: nat)
    requires n <= |requests| && BatchTexts(text, requests[..n]).Failure?
    ensures BatchTexts(text, requests) == BatchTexts(text, requests[..n])
    decreases |requests| - n
  {
    if n < |requests| {
      assert requests[..n + 1][..n] == requests[..n];
      BatchFailurePropagates(text, requests, n + 1);
    } else {
      assert requests[..n] == requests;
    }
  }
}
