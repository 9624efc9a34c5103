/** `fromPublicHolidaysToMap`: the holiday list folded into a map from the
    normalised date key to the holiday record. */
module HolidayIndex {
  import opened DateKey
  import opened OrderedMap

  /** A record of the holidays API; fields other than the date and the name
      are carried along by the page but never read. */
  datatype PublicHoliday = PublicHoliday(date: string, name: string)

  predicate WellDated(hs: seq<PublicHoliday>)
  {
    forall i :: 0 <= i < |hs| ==> IsDateText(hs[i].date)
  }

  /** The key a record is stored under: `format(extractDate(date), "YYYY/MM/DD")`. */
  function HolidayKey(h: PublicHoliday): string
    requires IsDateText(h.date)
  {
    Key(ExtractDate(h.date))
  }

  /** The keys of the records, in list order. */
  function Keys(hs: seq<PublicHoliday>): (ks: seq<string>)
    requires WellDated(hs)
    ensures |ks| == |hs| && forall i :: 0 <= i < |hs| ==> ks[i] == HolidayKey(hs[i])
  {
    seq(|hs|, i requires 0 <= i < |hs| => HolidayKey(hs[i]))
  }

  /** The map after every record has been `set` under its key, in list order. */
  function Index(hs: seq<PublicHoliday>): map<string, PublicHoliday>
    requires WellDated(hs)
  {
    SetAll(Keys(hs), hs)
  }

  /** Record `i` carries key `k` and no later record does. */
  predicate IsLastWithKey(hs: seq<PublicHoliday>, i: int, k: string)
    requires WellDated(hs)
  {
    LastSetAt(Keys(hs), i, k)
  }

  /** The loop of `fromPublicHolidaysToMap`, one `set` per record. */
  method FromPublicHolidaysToMap(hs: seq<PublicHoliday>) returns (m: map<string, PublicHoliday>)
    requires WellDated(hs)
    ensures m == Index(hs)
  {
    ghost var ks := Keys(hs);
    m := map[];
    var i := 0;
    while i < |hs|
      invariant 0 <= i <= |hs|
      invariant m == SetAll(ks[..i], hs[..i])
    {
      var holiday := hs[i];
      var date := HolidayKey(holiday);
      SetAllStep(ks, hs, i);
      m := m[date := holiday];
      i := i + 1;
    }
    assert ks[..i] == ks && hs[..i] == hs;
  }
}
