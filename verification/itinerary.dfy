/**
  The itinerary editor's document model and its editing operations: trip
  metadata, the ordered list of day plans (each owning its hotel bookings),
  the payment schedule, and the comma-separated inclusion/exclusion lists.
  Every operation is a pure function from the old state to the new one, as the
  component's `setState` updaters are.
*/
module Itinerary {
  import opened Text
  import Keyed

  /** A client-generated identity (`Date.now()`, possibly plus `Math.random()`),
      compared with `===`. Generation is outside the model: ids are arguments. */
  type Id = int

  /** The result of a browser `prompt()`: `null` when cancelled, else the text. */
  datatype Reply = Cancelled | Entered(text: string)

  /** `prompt(...) || 1`: the typed text when non-empty, otherwise the number 1. */
  datatype Nights = Typed(text: string) | DefaultOne

  datatype Hotel = Hotel(name: string, city: string, checkIn: string, checkOut: string, nights: Nights)

  datatype Day = Day(
    id: Id,
    dayIndex: int,
    date: string,
    morning: string,
    afternoon: string,
    evening: string,
    transport: string,
    hotels: seq<Hotel>)

  /** The text fields of a day that the editor updates by name. */
  datatype DayField = Date | Morning | Afternoon | Evening | Transport

  datatype Payment = Payment(id: Id, amount: string, dueDate: string)

  datatype PaymentField = Amount | DueDate

  datatype TripMeta = TripMeta(
    title: string,
    client: string,
    duration: int,
    travelers: int,
    departure: string,
    arrival: string,
    startDate: string,
    endDate: string,
    notes: string)

  function DayKey(d: Day): Id { d.id }

  function PaymentKey(p: Payment): Id { p.id }

  predicate UniqueDayIds(days: seq<Day>) {
    Keyed.UniqueKeys(days, DayKey)
  }

  predicate UniquePaymentIds(payments: seq<Payment>) {
    Keyed.UniqueKeys(payments, PaymentKey)
  }

  /** Every day's stored index is its 1-based position in the list. */
  predicate IndexedByPosition(days: seq<Day>) {
    forall k :: 0 <= k < |days| ==> days[k].dayIndex == k + 1
  }

  // ---------------------------------------------------------------------------
  // Field access

  function GetField(d: Day, f: DayField): string {
    match f
    case Date => d.date
    case Morning => d.morning
    case Afternoon => d.afternoon
    case Evening => d.evening
    case Transport => d.transport
  }

  /** `{ ...d, [f]: v }` for a text field. */
  function SetField(d: Day, f: DayField, v: string): (r: Day)
    ensures GetField(r, f) == v
    ensures forall g :: g != f ==> GetField(r, g) == GetField(d, g)
    ensures r.id == d.id && r.dayIndex == d.dayIndex && r.hotels == d.hotels
  {
    match f
    case Date => d.(date := v)
    case Morning => d.(morning := v)
    case Afternoon => d.(afternoon := v)
    case Evening => d.(evening := v)
    case Transport => d.(transport := v)
  }

  function GetPaymentField(p: Payment, f: PaymentField): string {
    match f
    case Amount => p.amount
    case DueDate => p.dueDate
  }

  /** `{ ...p, [f]: v }`. */
  function SetPaymentField(p: Payment, f: PaymentField, v: string): (r: Payment)
    ensures GetPaymentField(r, f) == v
    ensures forall g :: g != f ==> GetPaymentField(r, g) == GetPaymentField(p, g)
    ensures r.id == p.id
  {
    match f
    case Amount => p.(amount := v)
    case DueDate => p.(dueDate := v)
  }

  // ---------------------------------------------------------------------------
  // Days

  /** `makeEmptyDay(dayIndex)` with the generated id supplied. */
  function MakeEmptyDay(id: Id, dayIndex: int): (d: Day)
    ensures d.id == id && d.dayIndex == dayIndex
    ensures forall f :: GetField(d, f) == []
    ensures d.hotels == []
  {
    Day(id, dayIndex, "", "", "", "", "", [])
  }

  /** The initial state: three empty days numbered 1 to 3. */
  function InitialDays(ids: seq<Id>): (days: seq<Day>)
    requires |ids| == 3
    ensures |days| == 3
    ensures IndexedByPosition(days)
    ensures forall k :: 0 <= k < 3 ==> days[k].id == ids[k] && days[k].hotels == []
    ensures forall k, f :: 0 <= k < 3 ==> GetField(days[k], f) == []
  {
    [MakeEmptyDay(ids[0], 1), MakeEmptyDay(ids[1], 2), MakeEmptyDay(ids[2], 3)]
  }

  /** `addDay`: appends an empty day numbered one past the current count. */
  function AddDay(days: seq<Day>, id: Id): (r: seq<Day>)
    ensures |r| == |days| + 1
    ensures r[..|days|] == days
    ensures r[|days|].id == id && r[|days|].dayIndex == |days| + 1
    ensures forall f :: GetField(r[|days|], f) == []
    ensures r[|days|].hotels == []
  {
    days + [MakeEmptyDay(id, |days| + 1)]
  }

  /** `removeDay`: keeps the days whose id differs from `id`. */
  function RemoveDay(days: seq<Day>, id: Id): (r: seq<Day>)
    ensures forall k :: 0 <= k < |r| ==> r[k].id != id
    ensures forall k :: 0 <= k < |days| && days[k].id != id ==> days[k] in r
    ensures forall k :: 0 <= k < |r| ==> r[k] in days
    ensures Keyed.IsSubsequence(r, days)
    ensures |r| == |days| - Keyed.CountKey(days, DayKey, id)
    ensures (forall k :: 0 <= k < |days| ==> days[k].id != id) ==> r == days
  {
    var r := Keyed.RemoveKey(days, DayKey, id);
    Keyed.RemoveKeyContents(days, DayKey, id);
    Keyed.CountKeyZero(days, DayKey, id);
    r
  }

  /** `updateDay(id, key, value)`: sets one text field of the days with that id. */
  function UpdateDay(days: seq<Day>, id: Id, field: DayField, value: string): (r: seq<Day>)
    ensures |r| == |days|
    ensures forall k :: 0 <= k < |r| ==>
      r[k].id == days[k].id && r[k].dayIndex == days[k].dayIndex && r[k].hotels == days[k].hotels
    ensures forall k :: 0 <= k < |r| ==>
      GetField(r[k], field) == (if days[k].id == id then value else GetField(days[k], field))
    ensures forall k, g :: 0 <= k < |r| && g != field ==> GetField(r[k], g) == GetField(days[k], g)
    ensures forall k :: 0 <= k < |r| && days[k].id != id ==> r[k] == days[k]
  {
    Keyed.UpdateKey(days, DayKey, id, (d: Day) => SetField(d, field, value))
  }

  /** `quickEdit(d, field)`: a cancelled prompt changes nothing; otherwise the
      entered text becomes the field's value. */
  function QuickEdit(days: seq<Day>, id: Id, field: DayField, reply: Reply): (r: seq<Day>)
    ensures reply.Cancelled? ==> r == days
    ensures |r| == |days|
    ensures forall k :: 0 <= k < |r| ==>
      r[k].id == days[k].id && r[k].dayIndex == days[k].dayIndex && r[k].hotels == days[k].hotels
    ensures reply.Entered? ==> forall k :: 0 <= k < |r| && days[k].id == id ==>
      GetField(r[k], field) == reply.text
    ensures forall k, g :: 0 <= k < |r| && g != field ==> GetField(r[k], g) == GetField(days[k], g)
    ensures forall k :: 0 <= k < |r| && days[k].id != id ==> r[k] == days[k]
  {
    match reply
    case Cancelled => days
    case Entered(v) => UpdateDay(days, id, field, v)
  }

  lemma AddDayKeepsUnique(days: seq<Day>, id: Id)
    requires UniqueDayIds(days)
    requires forall k :: 0 <= k < |days| ==> days[k].id != id
    ensures UniqueDayIds(AddDay(days, id))
  {
    var r := AddDay(days, id);
    forall i, j | 0 <= i < j < |r| ensures DayKey(r[i]) != DayKey(r[j]) {
      assert r[i] == days[i];
      if j < |days| { assert r[j] == days[j]; }
    }
  }

  lemma AddDayKeepsIndexing(days: seq<Day>, id: Id)
    requires IndexedByPosition(days)
    ensures IndexedByPosition(AddDay(days, id))
  {
    var r := AddDay(days, id);
    forall k | 0 <= k < |r| ensures r[k].dayIndex == k + 1 {
      if k < |days| { assert r[k] == days[k]; }
    }
  }

  lemma RemoveDayKeepsUnique(days: seq<Day>, id: Id)
    requires UniqueDayIds(days)
    ensures UniqueDayIds(RemoveDay(days, id))
  {
    Keyed.RemoveKeyKeepsUnique(days, DayKey, id);
  }

  /** With unique ids, removing the id at position `k` drops exactly that day. */
  lemma RemoveDayAt(days: seq<Day>, k: nat)
    requires UniqueDayIds(days)
    requires k < |days|
    ensures RemoveDay(days, days[k].id) == days[..k] + days[k + 1..]
  {
    Keyed.RemoveKeyAt(days, DayKey, k);
  }

  /** The stored day index is not renumbered: removing the first of the
      initial days and adding one leaves two days numbered 3. */
  lemma RemoveThenAddRepeatsIndex()
    ensures var days := AddDay(RemoveDay(InitialDays([1, 2, 3]), 1), 4);
      |days| == 3 && days[1].dayIndex == 3 && days[2].dayIndex == 3
  {
    var init := InitialDays([1, 2, 3]);
    assert UniqueDayIds(init);
    RemoveDayAt(init, 0);
    assert RemoveDay(init, 1) == init[1..];
  }

  /** Editing a day and then deleting it is the same as deleting it. */
  lemma {:induction false} RemoveAfterUpdate(days: seq<Day>, id: Id, field: DayField, value: string)
    ensures RemoveDay(UpdateDay(days, id, field, value), id) == RemoveDay(days, id)
    decreases |days|
  {
    if days != [] {
      var u := UpdateDay(days, id, field, value);
      assert u[1..] == UpdateDay(days[1..], id, field, value);
      RemoveAfterUpdate(days[1..], id, field, value);
    }
  }

  /** Setting a field twice to the same value is the same as setting it once. */
  lemma UpdateDayIdempotent(days: seq<Day>, id: Id, field: DayField, value: string)
    ensures UpdateDay(UpdateDay(days, id, field, value), id, field, value)
      == UpdateDay(days, id, field, value)
  {
    var once := UpdateDay(days, id, field, value);
    var twice := UpdateDay(once, id, field, value);
    forall k | 0 <= k < |days| ensures twice[k] == once[k] {
      if days[k].id == id {
        SetFieldTwice(days[k], field, value);
      }
    }
  }

  lemma SetFieldTwice(d: Day, f: DayField, v: string)
    ensures SetField(SetField(d, f, v), f, v) == SetField(d, f, v)
  {
  }

  // ---------------------------------------------------------------------------
  // Hotels

  /** `prompt(...) || ""`: a cancelled or empty reply becomes the empty string. */
  function TextOrEmpty(reply: Reply): (s: string)
    ensures reply.Entered? ==> s == reply.text
    ensures reply.Cancelled? ==> s == []
  {
    match reply
    case Cancelled => []
    case Entered(t) => t
  }

  /** `prompt("Nights") || 1`. */
  function NightsOf(reply: Reply): (n: Nights)
    ensures n.Typed? <==> reply.Entered? && reply.text != []
    ensures n.Typed? ==> n.text == reply.text
  {
    match reply
    case Cancelled => DefaultOne
    case Entered(t) => if t == [] then DefaultOne else Typed(t)
  }

  /** The booking assembled from the five prompt replies. */
  function HotelOf(name: Reply, city: Reply, checkIn: Reply, checkOut: Reply, nights: Reply): Hotel {
    Hotel(TextOrEmpty(name), TextOrEmpty(city), TextOrEmpty(checkIn), TextOrEmpty(checkOut), NightsOf(nights))
  }

  function WithHotel(d: Day, h: Hotel): Day {
    d.(hotels := d.hotels + [h])
  }

  /** The "Add Hotel" handler of the day with id `dayId`: when a hotel name was
      entered, appends the booking to that day's hotels; otherwise nothing changes. */
  function AddHotel(days: seq<Day>, dayId: Id, name: Reply, city: Reply, checkIn: Reply,
                    checkOut: Reply, nights: Reply): (r: seq<Day>)
    ensures TextOrEmpty(name) == [] ==> r == days
    ensures |r| == |days|
    ensures forall k :: 0 <= k < |r| && days[k].id != dayId ==> r[k] == days[k]
    ensures TextOrEmpty(name) != [] ==> forall k :: 0 <= k < |r| && days[k].id == dayId ==>
      r[k] == days[k].(hotels := days[k].hotels + [HotelOf(name, city, checkIn, checkOut, nights)])
  {
    var h := HotelOf(name, city, checkIn, checkOut, nights);
    if h.name == [] then days
    else Keyed.UpdateKey(days, DayKey, dayId, (d: Day) => WithHotel(d, h))
  }

  /** `days.flatMap(d => d.hotels)`: the rows of the hotel bookings table. */
  function HotelTable(days: seq<Day>): seq<Hotel> {
    if days == [] then [] else days[0].hotels + HotelTable(days[1..])
  }

  function HotelCount(days: seq<Day>): nat {
    if days == [] then 0 else |days[0].hotels| + HotelCount(days[1..])
  }

  /** The table has one row per booking, summed over the days. */
  lemma {:induction false} HotelTableSize(days: seq<Day>)
    ensures |HotelTable(days)| == HotelCount(days)
    decreases |days|
  {
    if days != [] {
      HotelTableSize(days[1..]);
    }
  }

  /** The table of a concatenation is the concatenation of the tables. */
  lemma {:induction false} HotelTableAppend(a: seq<Day>, b: seq<Day>)
    ensures HotelTable(a + b) == HotelTable(a) + HotelTable(b)
    decreases |a|
  {
    if a == [] {
      assert a + b == b;
    } else {
      assert (a + b)[1..] == a[1..] + b;
      HotelTableAppend(a[1..], b);
    }
  }

  /** Adding a day leaves the table unchanged: the new day has no hotels. */
  lemma AddDayKeepsTable(days: seq<Day>, id: Id)
    ensures HotelTable(AddDay(days, id)) == HotelTable(days)
  {
    HotelTableAppend(days, [MakeEmptyDay(id, |days| + 1)]);
  }

  /** Editing a text field leaves the table unchanged. */
  lemma {:induction false} UpdateDayKeepsTable(days: seq<Day>, id: Id, field: DayField, value: string)
    ensures HotelTable(UpdateDay(days, id, field, value)) == HotelTable(days)
    decreases |days|
  {
    if days != [] {
      var u := UpdateDay(days, id, field, value);
      assert u[1..] == UpdateDay(days[1..], id, field, value);
      UpdateDayKeepsTable(days[1..], id, field, value);
    }
  }

  /** With unique ids, removing the day at position `k` removes exactly its rows. */
  lemma RemoveDayTable(days: seq<Day>, k: nat)
    requires UniqueDayIds(days)
    requires k < |days|
    ensures HotelTable(RemoveDay(days, days[k].id))
      == HotelTable(days[..k]) + HotelTable(days[k + 1..])
  {
    RemoveDayAt(days, k);
    HotelTableAppend(days[..k], days[k + 1..]);
  }

  /** With unique ids, adding a hotel to the day at position `k` inserts exactly
      one row, after that day's existing rows. */
  lemma AddHotelTable(days: seq<Day>, k: nat, name: Reply, city: Reply, checkIn: Reply,
                      checkOut: Reply, nights: Reply)
    requires UniqueDayIds(days)
    requires k < |days|
    requires TextOrEmpty(name) != []
    ensures HotelTable(AddHotel(days, days[k].id, name, city, checkIn, checkOut, nights))
      == HotelTable(days[..k + 1]) + [HotelOf(name, city, checkIn, checkOut, nights)]
         + HotelTable(days[k + 1..])
  {
    var h := HotelOf(name, city, checkIn, checkOut, nights);
    AddHotelAt(days, k, h);
    Keyed.PrefixNext(days, k);
    TableWithHotel(days[..k], days[k], days[k + 1..], h);
  }

  /** Adding a hotel to one day appends it after that day's hotels in the table. */
  lemma TableWithHotel(before: seq<Day>, d: Day, after: seq<Day>, h: Hotel)
    ensures HotelTable(before + [WithHotel(d, h)] + after)
      == HotelTable(before + [d]) + [h] + HotelTable(after)
  {
    HotelTableAppend(before + [WithHotel(d, h)], after);
    HotelTableAppend(before, [WithHotel(d, h)]);
    HotelTableAppend(before, [d]);
    assert HotelTable([WithHotel(d, h)]) == d.hotels + [h];
    assert HotelTable([d]) == d.hotels;
  }

  /** With unique ids, the handler's `map` changes only the day at position `k`. */
  lemma AddHotelAt(days: seq<Day>, k: nat, h: Hotel)
    requires UniqueDayIds(days)
    requires k < |days|
    ensures Keyed.UpdateKey(days, DayKey, days[k].id, (d: Day) => WithHotel(d, h))
      == days[..k] + [WithHotel(days[k], h)] + days[k + 1..]
  {
    var id := days[k].id;
    var r := Keyed.UpdateKey(days, DayKey, id, (d: Day) => WithHotel(d, h));
    var expected := days[..k] + [WithHotel(days[k], h)] + days[k + 1..];
    assert |r| == |expected|;
    forall m | 0 <= m < |days| ensures r[m] == expected[m] {
      if m < k {
        assert DayKey(days[m]) != DayKey(days[k]);
        assert expected[m] == days[m];
      } else if m == k {
        assert expected[m] == WithHotel(days[k], h);
      } else {
        assert DayKey(days[k]) != DayKey(days[m]);
        assert expected[m] == days[m];
      }
    }
  }

  // ---------------------------------------------------------------------------
  // Payments

  /** `addPayment`: appends a payment with empty amount and due date. */
  function AddPayment(payments: seq<Payment>, id: Id): (r: seq<Payment>)
    ensures |r| == |payments| + 1
    ensures r[..|payments|] == payments
    ensures r[|payments|].id == id
    ensures forall f :: GetPaymentField(r[|payments|], f) == []
  {
    payments + [Payment(id, "", "")]
  }

  /** `removePayment`: keeps the payments whose id differs from `id`. */
  function RemovePayment(payments: seq<Payment>, id: Id): (r: seq<Payment>)
    ensures forall k :: 0 <= k < |r| ==> r[k].id != id
    ensures forall k :: 0 <= k < |payments| && payments[k].id != id ==> payments[k] in r
    ensures forall k :: 0 <= k < |r| ==> r[k] in payments
    ensures Keyed.IsSubsequence(r, payments)
    ensures |r| == |payments| - Keyed.CountKey(payments, PaymentKey, id)
    ensures (forall k :: 0 <= k < |payments| ==> payments[k].id != id) ==> r == payments
  {
    var r := Keyed.RemoveKey(payments, PaymentKey, id);
    Keyed.RemoveKeyContents(payments, PaymentKey, id);
    Keyed.CountKeyZero(payments, PaymentKey, id);
    r
  }

  /** `updatePayment(id, key, val)`. */
  function UpdatePayment(payments: seq<Payment>, id: Id, field: PaymentField, value: string): (r: seq<Payment>)
    ensures |r| == |payments|
    ensures forall k :: 0 <= k < |r| ==> r[k].id == payments[k].id
    ensures forall k :: 0 <= k < |r| ==>
      GetPaymentField(r[k], field) == (if payments[k].id == id then value else GetPaymentField(payments[k], field))
    ensures forall k, g :: 0 <= k < |r| && g != field ==>
      GetPaymentField(r[k], g) == GetPaymentField(payments[k], g)
    ensures forall k :: 0 <= k < |r| && payments[k].id != id ==> r[k] == payments[k]
  {
    Keyed.UpdateKey(payments, PaymentKey, id, (p: Payment) => SetPaymentField(p, field, value))
  }

  lemma AddPaymentKeepsUnique(payments: seq<Payment>, id: Id)
    requires UniquePaymentIds(payments)
    requires forall k :: 0 <= k < |payments| ==> payments[k].id != id
    ensures UniquePaymentIds(AddPayment(payments, id))
  {
    var r := AddPayment(payments, id);
    forall i, j | 0 <= i < j < |r| ensures PaymentKey(r[i]) != PaymentKey(r[j]) {
      assert r[i] == payments[i];
      if j < |payments| { assert r[j] == payments[j]; }
    }
  }

  /** With unique ids, removing the id at position `k` drops exactly that payment. */
  lemma RemovePaymentAt(payments: seq<Payment>, k: nat)
    requires UniquePaymentIds(payments)
    requires k < |payments|
    ensures RemovePayment(payments, payments[k].id) == payments[..k] + payments[k + 1..]
  {
    Keyed.RemoveKeyAt(payments, PaymentKey, k);
  }

  // ---------------------------------------------------------------------------
  // Text fields that edit lists

  function TrimAll(parts: seq<string>): (r: seq<string>)
    ensures |r| == |parts|
    ensures forall k :: 0 <= k < |r| ==> IsTrimmed(r[k]) && StripsTo(parts[k], r[k], LeadingSpaces(parts[k]))
  {
    if parts == [] then [] else [Trim(parts[0])] + TrimAll(parts[1..])
  }

  /** `text.split(",").map(s => s.trim())`, used for inclusions and exclusions:
      one item per comma-separated piece, with surrounding whitespace removed. */
  function ParseList(text: string): (items: seq<string>)
    ensures |items| == Occurrences(text, ',') + 1
    ensures forall k :: 0 <= k < |items| ==> ',' !in items[k] && IsTrimmed(items[k])
    ensures forall k :: 0 <= k < |items| ==>
      StripsTo(Split(text, ',')[k], items[k], LeadingSpaces(Split(text, ',')[k]))
  {
    var parts := Split(text, ',');
    var items := TrimAll(parts);
    forall k | 0 <= k < |items| ensures ',' !in items[k] {
      StripKeepsOut(parts[k], items[k], LeadingSpaces(parts[k]), ',');
    }
    items
  }

  /** Cutting off the ends of a string cannot introduce a character. */
  lemma StripKeepsOut(s: string, r: string, i: int, c: char)
    requires StripsTo(s, r, i)
    requires c !in s
    ensures c !in r
  {
    forall m | 0 <= m < |r| ensures r[m] != c {
      assert r[m] == s[i + m];
    }
  }

  /** `items.join(", ")`: the text shown in the inclusions/exclusions field. */
  function ListText(items: seq<string>): string {
    Join(items, ", ")
  }

  lemma {:induction false} ParsePaddedList(pre: string, items: seq<string>)
    requires AllSpace(pre)
    requires |items| >= 1
    requires forall k :: 0 <= k < |items| ==> ',' !in items[k] && IsTrimmed(items[k])
    ensures ParseList(pre + ListText(items)) == items
    decreases |items|
  {
    var p := items[0];
    CommaFreePadded(pre, p);
    if |items| == 1 {
      ParseSingle(pre, p);
    } else {
      var rest := ListText(items[1..]);
      ListTextCons(pre, items);
      ParseCons(pre, p, " " + rest);
      ParsePaddedList(" ", items[1..]);
      assert [p] + items[1..] == items;
    }
  }

  lemma ListTextCons(pre: string, items: seq<string>)
    requires |items| >= 2
    ensures pre + ListText(items) == (pre + items[0]) + [','] + (" " + ListText(items[1..]))
  {
  }

  lemma CommaFreePadded(pre: string, p: string)
    requires AllSpace(pre) && ',' !in p
    ensures ',' !in pre + p
  {
    forall k | 0 <= k < |pre + p| ensures (pre + p)[k] != ',' {
      if k < |pre| {
        assert (pre + p)[k] == pre[k];
      } else {
        assert (pre + p)[k] == p[k - |pre|];
      }
    }
  }

  lemma ParseSingle(pre: string, p: string)
    requires AllSpace(pre) && IsTrimmed(p) && ',' !in pre + p
    ensures ParseList(pre + p) == [p]
  {
    SplitNoSeparator(pre + p, ',');
    TrimPadded(pre, p, []);
    assert pre + p + [] == pre + p;
  }

  lemma ParseCons(pre: string, p: string, t: string)
    requires AllSpace(pre) && IsTrimmed(p) && ',' !in pre + p
    ensures ParseList((pre + p) + [','] + t) == [p] + ParseList(t)
  {
    SplitCons(pre + p, ',', t);
    TrimPadded(pre, p, []);
    assert pre + p + [] == pre + p;
    var parts := Split(t, ',');
    assert TrimAll([pre + p] + parts) == [Trim(pre + p)] + TrimAll(parts) by {
      assert ([pre + p] + parts)[1..] == parts;
    }
  }

  /** Re-parsing the displayed text of a non-empty list of trimmed, comma-free
      items gives the same list back. */
  lemma ParseListText(items: seq<string>)
    requires |items| >= 1
    requires forall k :: 0 <= k < |items| ==> ',' !in items[k] && IsTrimmed(items[k])
    ensures ParseList(ListText(items)) == items
  {
    ParsePaddedList([], items);
    assert [] + ListText(items) == ListText(items);
  }

  /** An empty list is shown as the empty text, which parses to one empty item. */
  lemma ParseEmptyText()
    ensures ListText([]) == []
    ensures ParseList([]) == [[]]
  {
  }

  // ---------------------------------------------------------------------------
  // Departure / arrival

  const Arrow: char := '\U{2192}'

  /** `${departure} → ${arrival}`: the text shown in the route field. */
  function RouteText(meta: TripMeta): string {
    meta.departure + " " + [Arrow] + " " + meta.arrival
  }

  /** The route field's change handler: splits on the arrow and trims; an empty
      or missing first or second piece keeps the current value. */
  function SetRoute(meta: TripMeta, text: string): (r: TripMeta)
    ensures r == meta.(departure := r.departure, arrival := r.arrival)
    ensures var parts := TrimAll(Split(text, Arrow));
      && r.departure == (if parts[0] != [] then parts[0] else meta.departure)
      && r.arrival == (if |parts| >= 2 && parts[1] != [] then parts[1] else meta.arrival)
    ensures Arrow !in text ==> r.arrival == meta.arrival
  {
    var parts := TrimAll(Split(text, Arrow));
    var dep := if parts[0] != [] then parts[0] else meta.departure;
    var arr := if |parts| >= 2 && parts[1] != [] then parts[1] else meta.arrival;
    meta.(departure := dep, arrival := arr)
  }

  /** Re-submitting the shown route text changes nothing, as long as neither
      place has surrounding whitespace or contains the arrow. */
  lemma RouteRoundTrip(meta: TripMeta)
    requires IsTrimmed(meta.departure) && IsTrimmed(meta.arrival)
    requires Arrow !in meta.departure && Arrow !in meta.arrival
    ensures SetRoute(meta, RouteText(meta)) == meta
  {
    RouteTextParts(meta.departure, meta.arrival);
    var r := SetRoute(meta, RouteText(meta));
    assert r.departure == meta.departure && r.arrival == meta.arrival;
  }

  /** The shown route text splits and trims back into the two places. */
  lemma RouteTextParts(d: string, a: string)
    requires IsTrimmed(d) && IsTrimmed(a)
    requires Arrow !in d && Arrow !in a
    ensures TrimAll(Split(d + " " + [Arrow] + " " + a, Arrow)) == [d, a]
  {
    RouteTextPieces(d, a);
    TrimPadded([], d, " ");
    assert [] + d + " " == d + " ";
    TrimPadded(" ", a, []);
    assert " " + a + [] == " " + a;
    TrimAllPair(d + " ", " " + a);
  }

  lemma TrimAllPair(x: string, y: string)
    ensures TrimAll([x, y]) == [Trim(x), Trim(y)]
  {
    assert [x, y][1..] == [y];
  }

  lemma RouteTextPieces(d: string, a: string)
    requires Arrow !in d && Arrow !in a
    ensures Split(d + " " + [Arrow] + " " + a, Arrow) == [d + " ", " " + a]
  {
    var left, right := d + " ", " " + a;
    assert d + " " + [Arrow] + " " + a == left + [Arrow] + right;
    NoArrowPadded(d, [], " ");
    NoArrowPadded(a, " ", []);
    assert [] + d + " " == left && " " + a + [] == right;
    SplitCons(left, Arrow, right);
    SplitNoSeparator(right, Arrow);
  }

  lemma NoArrowPadded(x: string, pre: string, post: string)
    requires Arrow !in x
    requires pre == [] || pre == " "
    requires post == [] || post == " "
    ensures Arrow !in pre + x + post
  {
    var s := pre + x + post;
    forall k | 0 <= k < |s| ensures s[k] != Arrow {
      if k < |pre| { assert s[k] == pre[k]; }
      else if k < |pre| + |x| { assert s[k] == x[k - |pre|]; }
      else { assert s[k] == post[k - |pre| - |x|]; }
    }
  }
}
