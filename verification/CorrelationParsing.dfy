// What a header list parses to, stated on the header values themselves, for every list.

module CorrelationParsing {
  import opened Words
  import opened Text
  import opened Correlation
  import opened CorrelationRoundTrip
  import Decimal
  import Hex

  // ----- identifiers -----

  // 32 lower-case hexadecimal digits.
  predicate WellFormedId(id: string) {
    |id| == 32 && forall c <- id :: '0' <= c <= '9' || 'a' <= c <= 'f'
  }

  lemma ValidIdIff(id: string)
    ensures ValidId(id) <==> WellFormedId(id)
  {
    if ValidId(id) || WellFormedId(id) {
      assert AllAscii(id);
    }
  }

  // ----- one baggage item -----

  // What precedes the first equals sign is, trimmed and not empty, the key, and what follows it,
  // trimmed, the value.
  ghost predicate Item(text: string, left: string, right: string, k: string, v: string) {
    text == left + "=" + right && '=' !in left && k == Trim(left) && k != "" && v == Trim(right)
  }

  ghost predicate ItemDenotes(text: string, k: string, v: string) {
    exists left: string, right: string :: Item(text, left, right, k, v)
  }

  lemma FirstEquals(left: string, right: string)
    requires '=' !in left
    ensures Before(left + "=" + right, {'='}) == left
    ensures (left + "=" + right)[|left| + 1..] == right
  {
    BeforeIs(left, "=" + right, {'='});
    assert left + "=" + right == left + ("=" + right);
  }

  lemma Regroup(a: string, x: string, y: string, b: string)
    ensures a + (x + ("=" + y)) + b == (a + x) + "=" + (y + b)
  {
  }

  lemma PadLeft(pad: string, s: string)
    requires forall c <- pad :: IsWhitespace(c)
    ensures Trim(pad + s) == Trim(s)
  {
    TrimPadding(pad, s, "");
    assert pad + s + "" == pad + s;
  }

  lemma PadRight(s: string, pad: string)
    requires forall c <- pad :: IsWhitespace(c)
    ensures Trim(s + pad) == Trim(s)
  {
    TrimPadding("", s, pad);
    assert "" + s + pad == s + pad;
  }

  // The first equals sign of the trimmed text is that of the text itself.
  lemma SplitsAlike(text: string, pos: nat) returns (left: string, right: string)
    requires IndexOf(Trim(text), {'='}) == Some(pos)
    ensures text == left + "=" + right && '=' !in left
    ensures Trim(left) == Trim(Trim(text)[..pos]) && Trim(right) == Trim(Trim(text)[pos + 1..])
  {
    var pair := Trim(text);
    var x, y := pair[..pos], pair[pos + 1..];
    var before, after := TrimParts(text);
    assert forall c <- before :: c in before + after;
    assert forall c <- after :: c in before + after;
    IndexOfIsFirst(pair, {'='});
    CutAt(pair, pos);
    Regroup(before, x, y, after);
    left, right := before + x, y + after;
    PadLeft(before, x);
    PadRight(y, after);
  }

  lemma ParsedPairIsItem(text: string)
    requires ParsePair(text).Some?
    ensures ItemDenotes(text, ParsePair(text).value.0, ParsePair(text).value.1)
  {
    var left, right := SplitsAlike(text, IndexOf(Trim(text), {'='}).value);
    assert Item(text, left, right, Trim(left), Trim(right));
  }

  lemma EqualsSurvivesTrim(text: string)
    requires '=' in text
    ensures IndexOf(Trim(text), {'='}).Some?
  {
    var before, after := TrimParts(text);
    assert forall c <- before :: c in before + after;
    assert forall c <- after :: c in before + after;
    IndexOfIsFirst(Trim(text), {'='});
  }

  lemma ItemIsParsed(text: string, k: string, v: string)
    requires ItemDenotes(text, k, v)
    ensures ParsePair(text) == Some((k, v))
  {
    var left, right :| Item(text, left, right, k, v);
    assert text[|left|] == '=';
    EqualsSurvivesTrim(text);
    var l, r := SplitsAlike(text, IndexOf(Trim(text), {'='}).value);
    FirstEquals(left, right);
    FirstEquals(l, r);
  }

  // An item is read as a pair exactly when it denotes it.
  lemma ItemIff(text: string, k: string, v: string)
    ensures ParsePair(text) == Some((k, v)) <==> ItemDenotes(text, k, v)
  {
    if ParsePair(text) == Some((k, v)) {
      ParsedPairIsItem(text);
    }
    if ItemDenotes(text, k, v) {
      ItemIsParsed(text, k, v);
    }
  }

  // ----- all baggage -----

  // The comma-separated items of all baggage values, in order.
  function ItemsOf(values: seq<string>): seq<string> {
    if values == [] then [] else ItemsOf(values[..|values| - 1]) + Split(values[|values| - 1], ',')
  }

  // The last item with key k gives it the value v.
  ghost predicate LastItem(items: seq<string>, k: string, v: string) {
    exists i :: 0 <= i < |items| && LastItemAt(items, i, k, v)
  }

  ghost predicate LastItemAt(items: seq<string>, i: nat, k: string, v: string)
    requires i < |items|
  {
    ItemDenotes(items[i], k, v) && forall j, w :: i < j < |items| ==> !ItemDenotes(items[j], k, w)
  }

  lemma {:induction false} AddPairsConcat(m: map<string, string>, a: seq<string>, b: seq<string>)
    ensures AddPairs(m, a + b) == AddPairs(AddPairs(m, a), b)
  {
    if b == [] {
      assert a + b == a;
    } else {
      assert (a + b)[..|a + b| - 1] == a + b[..|b| - 1];
      AddPairsConcat(m, a, b[..|b| - 1]);
    }
  }

  lemma {:induction false} BaggageIsItems(values: seq<string>)
    ensures ScanBaggage(values) == AddPairs(map[], ItemsOf(values))
  {
    if values != [] {
      BaggageIsItems(values[..|values| - 1]);
      AddPairsConcat(map[], ItemsOf(values[..|values| - 1]), Split(values[|values| - 1], ','));
    }
  }

  lemma LastItemSnoc(items: seq<string>, last: string, k: string, v: string)
    ensures LastItem(items + [last], k, v) <==>
            ItemDenotes(last, k, v) || (LastItem(items, k, v) && forall w: string :: !ItemDenotes(last, k, w))
  {
    var all := items + [last];
    if ItemDenotes(last, k, v) {
      assert LastItemAt(all, |items|, k, v);
    } else if LastItem(items, k, v) && forall w: string :: !ItemDenotes(last, k, w) {
      var i :| 0 <= i < |items| && LastItemAt(items, i, k, v);
      assert LastItemAt(all, i, k, v);
    }
    if LastItem(all, k, v) {
      var i :| 0 <= i < |all| && LastItemAt(all, i, k, v);
      if i < |items| {
        assert all[|items|] == last;
        forall j, w | i < j < |items| ensures !ItemDenotes(items[j], k, w) {
          assert all[j] == items[j];
        }
        assert LastItemAt(items, i, k, v);
      }
    }
  }

  lemma {:induction false} PairsAreLastItems(items: seq<string>, k: string, v: string)
    ensures k in AddPairs(map[], items) && AddPairs(map[], items)[k] == v <==> LastItem(items, k, v)
  {
    if items != [] {
      var front, last := items[..|items| - 1], items[|items| - 1];
      assert items == front + [last];
      PairsAreLastItems(front, k, v);
      LastItemSnoc(front, last, k, v);
      forall w: string { ItemIff(last, k, w); }
    }
  }

  // Every key with the value of its last item, and no other key.
  ghost predicate BaggageIs(m: map<string, string>, items: seq<string>) {
    forall k, v :: k in m && m[k] == v <==> LastItem(items, k, v)
  }

  lemma BaggageRead(values: seq<string>)
    ensures BaggageIs(ScanBaggage(values), ItemsOf(values))
  {
    BaggageIsItems(values);
    var m, items := ScanBaggage(values), ItemsOf(values);
    forall k, v ensures k in m && m[k] == v <==> LastItem(items, k, v) {
      PairsAreLastItems(items, k, v);
    }
  }

  // ----- the whole list -----

  ghost predicate IsCount(v: string) {
    exists n: nat :: n <= U32_MAX && Decimal.Denotes(v, n)
  }

  ghost predicate FirstBadCount(values: seq<string>, i: nat) {
    i < |values| && !IsCount(values[i]) && forall j :: 0 <= j < i ==> IsCount(values[j])
  }

  lemma CountIff(v: string)
    ensures Decimal.ParseU32(v).Some? <==> IsCount(v)
  {
    if n: nat :| n <= U32_MAX && Decimal.Denotes(v, n) {
      Decimal.ParseU32Iff(v, n);
    }
    Decimal.ParseU32Iff(v, 0);
  }

  // The last count, or zero when there is none.
  ghost predicate CountIs(values: seq<string>, n: u32) {
    if values == [] then n == 0 else Decimal.Denotes(values[|values| - 1], n)
  }

  lemma {:induction false} CountsScan(values: seq<string>)
    ensures (forall v <- values :: IsCount(v)) ==>
              ScanHops(values).Ok? && CountIs(values, ScanHops(values).value)
    ensures forall i: nat :: FirstBadCount(values, i) ==> ScanHops(values) == Err(InvalidHopCount(values[i]))
  {
    if values != [] {
      var front, last := values[..|values| - 1], values[|values| - 1];
      assert values == front + [last];
      CountsScan(front);
      CountIff(last);
      Decimal.ParseU32Iff(last, 0);
      forall i: nat | FirstBadCount(values, i) ensures ScanHops(values) == Err(InvalidHopCount(values[i])) {
        if i < |front| {
          assert FirstBadCount(front, i) by {
            assert forall j :: 0 <= j <= i ==> front[j] == values[j];
          }
        } else {
          forall v | v in front ensures IsCount(v) {
            var j :| 0 <= j < |front| && front[j] == v;
            assert values[j] == v;
          }
        }
      }
    }
  }

  // The first hop count that is no 32-bit number fails the parse.
  lemma BadCountFails(hs: seq<Header>, i: nat)
    requires FirstBadCount(ValuesOf(hs, "X-Hop-Count"), i)
    ensures FromHeaders(hs) == Err(InvalidHopCount(ValuesOf(hs, "X-Hop-Count")[i]))
  {
    ScanByName(hs);
    CountsScan(ValuesOf(hs, HOP_HEADER));
  }

  function LastOr(values: seq<string>, default: string): string {
    if values == [] then default else values[|values| - 1]
  }

  lemma AssembledIs(hs: seq<Header>)
    requires ScanHops(ValuesOf(hs, HOP_HEADER)).Ok?
    ensures var ids, o := ValuesOf(hs, ID_HEADER), LastOr(ValuesOf(hs, ORIGIN_HEADER), "");
            FromHeaders(hs) ==
            if ids == [] then Err(MissingCorrelationId)
            else if !ValidId(ids[|ids| - 1]) then Err(InvalidCorrelationId(ids[|ids| - 1]))
            else Ok(Context(ids[|ids| - 1], o, o, ScanHops(ValuesOf(hs, HOP_HEADER)).value,
                            ScanBaggage(ValuesOf(hs, BAGGAGE_HEADER))))
  {
    ScanByName(hs);
  }

  // Otherwise the last identifier decides: none or a malformed one fails the parse, and a well
  // formed one gives a context with the last origin, or an empty one, as origin and current
  // service, the last hop count, or zero, and for every baggage key the value of its last item.
  lemma FromHeadersIs(hs: seq<Header>)
    requires forall v <- ValuesOf(hs, "X-Hop-Count") :: IsCount(v)
    ensures var ids, origins := ValuesOf(hs, "X-Correlation-Id"), ValuesOf(hs, "X-Origin-Service");
            var hops, items := ValuesOf(hs, "X-Hop-Count"), ItemsOf(ValuesOf(hs, "X-Baggage"));
            var r := FromHeaders(hs);
            if ids == [] then r == Err(MissingCorrelationId)
            else if !WellFormedId(ids[|ids| - 1]) then r == Err(InvalidCorrelationId(ids[|ids| - 1]))
            else
              && r.Ok? && r.value.id == ids[|ids| - 1]
              && r.value.origin == r.value.current == LastOr(origins, "")
              && CountIs(hops, r.value.hops)
              && BaggageIs(r.value.baggage, items)
  {
    var ids := ValuesOf(hs, ID_HEADER);
    CountsScan(ValuesOf(hs, HOP_HEADER));
    AssembledIs(hs);
    if ids != [] {
      ValidIdIff(ids[|ids| - 1]);
    }
    BaggageRead(ValuesOf(hs, BAGGAGE_HEADER));
  }
}
