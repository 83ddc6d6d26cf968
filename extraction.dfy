/** The extraction block of scripts/find_square_and_return.js (lines 123-146):
    the captured JSON payload becomes a flat result record, with the provider
    codes collected into an insertion-ordered `Set`. */
module Extraction {
  import opened Wrappers
  import opened JsValue
  import opened CaptureSlot

  const NoSquareReason := "no-square-captured"

  /** The `result` object: `{found:false, reason}` or `{found:true, ...}`. */
  datatype ResultRecord =
    | NotFound(reason: string)
    | Found(squareId: Value, squareNumber: Value, latitude: Value, longitude: Value, providers: seq<Value>, raw: Value)

  /** How the block ends: with a record, or with the TypeError that
      `p.provider` throws when an entry of `data.providers` is `null`. */
  datatype Outcome = Produced(record: ResultRecord) | Threw

  /** `capturedSquare && capturedSquare.json && capturedSquare.json.data` */
  predicate HasData(c: Option<Capture>) {
    c.Some? && Truthy(c.value.json) && Truthy(Get(c.value.json, "data"))
  }

  function DataOf(c: Option<Capture>): Value
    requires HasData(c)
  {
    Get(c.value.json, "data")
  }

  /** The entries the `for...of` loop visits: those of `d.providers` when it
      is an array, none otherwise. */
  function ProviderEntries(d: Value): seq<Value>
    requires !d.Nullish()
  {
    var ps := Get(d, "providers");
    if ps.Arr? then ps.items else []
  }

  /** No entry is `null`, so reading `p.provider` never throws. */
  predicate EntriesReadable(es: seq<Value>) {
    forall i :: 0 <= i < |es| ==> !es[i].Nullish()
  }

  /** `(p.provider && p.provider.providerCode) || p.providerCode || (p.provider && p.providerCode)` */
  function EntryCode(p: Value): Value
    requires !p.Nullish()
  {
    var prov := Get(p, "provider");
    var nested := if Truthy(prov) then Get(prov, "providerCode") else prov;
    var again := if Truthy(prov) then Get(p, "providerCode") else prov;
    Or(Or(nested, Get(p, "providerCode")), again)
  }

  /** The code an entry offers, in loop order. */
  function EntryCodes(es: seq<Value>): (r: seq<Value>)
    requires EntriesReadable(es)
    ensures |r| == |es|
  {
    if es == [] then [] else EntryCodes(es[..|es| - 1]) + [EntryCode(es[|es| - 1])]
  }

  /** `d[key] && d[key].providerCode`, as offered to the `Set` only when truthy. */
  function BoundCode(d: Value, key: string): Value
    requires !d.Nullish()
  {
    var b := Get(d, key);
    if Truthy(b) then Get(b, "providerCode") else Undefined
  }

  /** Every code offered to the `Set`, in the order it is offered: the
      array entries, then the minimum provider, then the maximum provider. */
  function Codes(d: Value): seq<Value>
    requires !d.Nullish() && EntriesReadable(ProviderEntries(d))
  {
    EntryCodes(ProviderEntries(d)) + [BoundCode(d, "minimumProvider"), BoundCode(d, "maximumProvider")]
  }

  /** `set.has(x)`. */
  predicate Has(s: seq<Value>, x: Value) {
    exists i :: 0 <= i < |s| && SameValueZero(s[i], x)
  }

  /** `set.add(x)`: a `Set` keeps the first insertion of a value. */
  function Insert(s: seq<Value>, x: Value): seq<Value> {
    if Has(s, x) then s else s + [x]
  }

  /** `if (code) providerSet.add(code)` */
  function Add(s: seq<Value>, x: Value): seq<Value> {
    if Truthy(x) then Insert(s, x) else s
  }

  /** `Array.from(providerSet)` after offering each of `cs` in turn. The result
      holds exactly the truthy codes offered, none of them twice. */
  function Collect(cs: seq<Value>): (r: seq<Value>)
    ensures forall i :: 0 <= i < |r| ==> Truthy(r[i])
    ensures forall i, j :: 0 <= i < j < |r| ==> !SameValueZero(r[i], r[j])
    ensures forall x :: x in r <==> x in cs && Truthy(x)
  {
    if cs == [] then [] else Add(Collect(cs[..|cs| - 1]), cs[|cs| - 1])
  }

  /** The provider list of a found record. */
  function ProviderList(d: Value): seq<Value>
    requires !d.Nullish() && EntriesReadable(ProviderEntries(d))
  {
    Collect(Codes(d))
  }

  /** Of the three alternatives at line 131 only two matter: the code is the
      nested `provider.providerCode` when that is truthy, else the entry's own
      `providerCode`; the third alternative is never truthy. */
  lemma EntryCodeFallback(p: Value)
    requires !p.Nullish()
    ensures var prov := Get(p, "provider");
            var nested := if Truthy(prov) then Get(prov, "providerCode") else Undefined;
            var own := Get(p, "providerCode");
            (Truthy(EntryCode(p)) <==> Truthy(nested) || Truthy(own)) &&
            (Truthy(nested) ==> EntryCode(p) == nested) &&
            (!Truthy(nested) && Truthy(own) ==> EntryCode(p) == own)
  {
  }

  /** Offering one more code. */
  lemma CollectSnoc(cs: seq<Value>, x: Value)
    ensures Collect(cs + [x]) == Add(Collect(cs), x)
  {
    assert (cs + [x])[..|cs|] == cs;
  }

  /** Offering more codes only appends: what was collected from a prefix
      stays in front, in the same order. */
  lemma {:induction false} CollectPrefix(cs: seq<Value>, m: nat)
    requires m <= |cs|
    ensures |Collect(cs[..m])| <= |Collect(cs)|
    ensures Collect(cs[..m]) == Collect(cs)[..|Collect(cs[..m])|]
    decreases |cs| - m
  {
    if m < |cs| {
      assert cs[..m + 1][..m] == cs[..m];
      assert Collect(cs[..m + 1]) == Add(Collect(cs[..m]), cs[m]);
      CollectPrefix(cs, m + 1);
    } else {
      assert cs[..m] == cs;
    }
  }

  /** A duplicate keeps its first position: the first occurrence of a code
      sits right after everything collected before it. */
  lemma FirstOccurrencePosition(cs: seq<Value>, k: nat)
    requires k < |cs| && Truthy(cs[k]) && !cs[k].IsReference()
    requires forall j :: 0 <= j < k ==> cs[j] != cs[k]
    ensures var before := Collect(cs[..k]);
            |before| < |Collect(cs)| &&
            Collect(cs)[..|before|] == before &&
            Collect(cs)[|before|] == cs[k]
  {
    var before := Collect(cs[..k]);
    assert cs[k] !in cs[..k];
    assert !Has(before, cs[k]);
    PrefixSnoc(cs, k);
    CollectSnoc(cs[..k], cs[k]);
    CollectPrefix(cs, k + 1);
    StartsWithSnoc(Collect(cs), before, cs[k]);
  }

  /** A sequence that starts with `t + [x]` starts with `t`, then has `x`. */
  lemma StartsWithSnoc<T>(s: seq<T>, t: seq<T>, x: T)
    requires |t| < |s| && s[..|t| + 1] == t + [x]
    ensures s[..|t|] == t && s[|t|] == x
  {
    assert s[..|t|] == s[..|t| + 1][..|t|];
  }

  /** Growing a prefix by one element. */
  lemma PrefixSnoc<T>(s: seq<T>, i: nat)
    requires i < |s|
    ensures s[..i + 1] == s[..i] + [s[i]]
    ensures s[..i + 1][..i] == s[..i]
  {
  }

  /** The codes of the array entries come first, in array order. */
  lemma ArrayCodesFirst(d: Value)
    requires !d.Nullish() && EntriesReadable(ProviderEntries(d))
    ensures var fromArray := Collect(EntryCodes(ProviderEntries(d)));
            |fromArray| <= |ProviderList(d)| &&
            ProviderList(d)[..|fromArray|] == fromArray
  {
    var es := ProviderEntries(d);
    assert Codes(d)[..|es|] == EntryCodes(es);
    CollectPrefix(Codes(d), |es|);
  }

  /** A `providers` field that is not an array contributes nothing. */
  lemma NonArrayProvidersIgnored(d: Value)
    requires !d.Nullish() && !Get(d, "providers").Arr?
    ensures ProviderList(d) == Collect([BoundCode(d, "minimumProvider"), BoundCode(d, "maximumProvider")])
  {
    assert Codes(d) == [BoundCode(d, "minimumProvider"), BoundCode(d, "maximumProvider")];
  }

  /** With only `minimumProvider.providerCode` set, the list is that code. */
  lemma OnlyMinimumProvider(d: Value)
    requires !d.Nullish() && !Get(d, "providers").Arr?
    requires Truthy(BoundCode(d, "minimumProvider")) && !Truthy(BoundCode(d, "maximumProvider"))
    ensures ProviderList(d) == [BoundCode(d, "minimumProvider")]
  {
    var lo := BoundCode(d, "minimumProvider");
    ProviderListSteps(d);
    assert ProviderEntries(d) == [];
    assert Collect(EntryCodes([])) == [];
    assert Add([], lo) == [lo];
  }

  /** Appending two elements is appending one, then the other. */
  lemma SnocTwice<T>(s: seq<T>, x: T, y: T)
    ensures s + [x, y] == s + [x] + [y]
  {
  }

  /** An exact-pattern response whose body parses but carries no truthy
      `data` (a body of `null` or `{}`) still takes the slot; when no later
      exact hit replaces it, every later heuristic match is ignored and the
      capture has no data, so the extraction reports that no square was
      captured. */
  lemma DatalessExactHitMeansNotFound(slot: Option<Capture>, rs: seq<Response>, k: nat)
    requires k < |rs| && ExactHit(rs[k])
    requires !Truthy(rs[k].body.json) || !Truthy(Get(rs[k].body.json, "data"))
    requires forall j :: k < j < |rs| ==> !ExactHit(rs[j])
    ensures Run(slot, rs) == Some(CaptureOf(rs[k]))
    ensures !HasData(Run(slot, rs))
  {
    LastExactHitWins(slot, rs, k);
  }

  /** The provider loop and the two conditional adds, lines 128-136. */
  method CollectProviders(d: Value) returns (providers: Option<seq<Value>>)
    requires !d.Nullish()
    ensures providers.Some? <==> EntriesReadable(ProviderEntries(d))
    ensures providers.Some? ==> providers.value == ProviderList(d)
  {
    var providerSet: seq<Value> := [];
    var es := ProviderEntries(d);
    var i := 0;
    while i < |es|
      invariant 0 <= i <= |es|
      invariant EntriesReadable(es[..i])
      invariant providerSet == Collect(EntryCodes(es[..i]))
    {
      var p := es[i];
      if p.Nullish() {
        // reading `p.provider` throws a TypeError
        NullEntryThrows(es, i);
        return None;
      }
      var code := EntryCode(p);
      if Truthy(code) {
        providerSet := Insert(providerSet, code);
      }
      CollectEntriesSnoc(es, i);
      i := i + 1;
    }
    var lo := BoundCode(d, "minimumProvider");
    if Truthy(lo) {
      providerSet := Insert(providerSet, lo);
    }
    var hi := BoundCode(d, "maximumProvider");
    if Truthy(hi) {
      providerSet := Insert(providerSet, hi);
    }
    ProviderListSteps(d);
    return Some(providerSet);
  }

  /** A `null` entry makes the entries unreadable. */
  lemma NullEntryThrows(es: seq<Value>, i: nat)
    requires i < |es| && es[i].Nullish()
    ensures !EntriesReadable(es)
  {
  }

  /** One more turn of the provider loop. */
  lemma CollectEntriesSnoc(es: seq<Value>, i: nat)
    requires i < |es| && EntriesReadable(es[..i]) && !es[i].Nullish()
    ensures EntriesReadable(es[..i + 1])
    ensures Collect(EntryCodes(es[..i + 1])) == Add(Collect(EntryCodes(es[..i])), EntryCode(es[i]))
  {
    PrefixSnoc(es, i);
    CollectSnoc(EntryCodes(es[..i]), EntryCode(es[i]));
  }

  /** The provider list is the loop's list, then the minimum, then the
      maximum provider offered. */
  lemma ProviderListSteps(d: Value)
    requires !d.Nullish() && EntriesReadable(ProviderEntries(d))
    ensures var es := ProviderEntries(d);
            es[..|es|] == es &&
            ProviderList(d) == Add(Add(Collect(EntryCodes(es)), BoundCode(d, "minimumProvider")), BoundCode(d, "maximumProvider"))
  {
    var es := ProviderEntries(d);
    var lo, hi := BoundCode(d, "minimumProvider"), BoundCode(d, "maximumProvider");
    assert es[..|es|] == es;
    CollectSnoc(EntryCodes(es), lo);
    CollectSnoc(EntryCodes(es) + [lo], hi);
    SnocTwice(EntryCodes(es), lo, hi);
  }

  /** The whole block: no usable capture gives the fixed "not found" record;
      otherwise `found` is set, each field takes the first truthy of its
      alternatives or `null`, the providers are collected, and `raw` is
      `data` itself. */
  method Extract(captured: Option<Capture>) returns (out: Outcome)
    ensures !HasData(captured) ==> out == Produced(NotFound(NoSquareReason))
    ensures HasData(captured) ==> (out.Threw? <==> !EntriesReadable(ProviderEntries(DataOf(captured))))
    ensures HasData(captured) && out.Produced? ==>
              var d := DataOf(captured);
              out.record.Found? && out.record.raw == d &&
              out.record.providers == ProviderList(d) &&
              out.record.squareId == FirstTruthy([Get(d, "id"), Get(d, "squareId")]) &&
              out.record.squareNumber == FirstTruthy([Get(d, "squareNumber")]) &&
              out.record.latitude == FirstTruthy([Get(d, "latitude"), Get(d, "lat")]) &&
              out.record.longitude == FirstTruthy([Get(d, "longitude"), Get(d, "lon")])
  {
    var result := NotFound(NoSquareReason);
    if captured.Some? && Truthy(captured.value.json) && Truthy(Get(captured.value.json, "data")) {
      var d := Get(captured.value.json, "data");
      var providers := CollectProviders(d);
      if providers.None? {
        return Threw;
      }
      result := Found(
        Or(Or(Get(d, "id"), Get(d, "squareId")), Null),
        Or(Get(d, "squareNumber"), Null),
        Or(Or(Get(d, "latitude"), Get(d, "lat")), Null),
        Or(Or(Get(d, "longitude"), Get(d, "lon")), Null),
        providers.value,
        d);
    }
    return Produced(result);
  }

}
