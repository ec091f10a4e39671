/** The holiday cycling widget: a current holiday, an emoji for it, and two buttons
    labelled "Advance by Alphabet" and "Advance by Year", each of which moves to the
    next holiday of its own fixed table. */
module CycleHoliday {

  datatype Holiday = Valentines | CincoDeMayo | Halloween | Thanksgiving | Christmas

  /** `holidayEmojis`. */
  function Emoji(h: Holiday): string {
    match h
    case Christmas => "\U{1F384}"
    case Halloween => "\U{1F383}"
    case CincoDeMayo => "\U{1FA85}"
    case Thanksgiving => "\U{1F983}"
    case Valentines => "\U{2764}\U{FE0F}"
  }

  /** `alphaHoliday`, the table behind "Advance by Alphabet", as the source lists it:
      Valentine's, Cinco de Mayo, Christmas, Halloween, Thanksgiving and round again.
      No holiday is its own successor. */
  function AlphaHoliday(h: Holiday): (r: Holiday)
    ensures r != h
  {
    match h
    case CincoDeMayo => Christmas
    case Christmas => Halloween
    case Halloween => Thanksgiving
    case Thanksgiving => Valentines
    case Valentines => CincoDeMayo
  }

  /** `dateHoliday`, the table behind "Advance by Year", as the source lists it:
      Valentine's, Cinco de Mayo, Thanksgiving, Halloween, Christmas and round again.
      No holiday is its own successor. */
  function DateHoliday(h: Holiday): (r: Holiday)
    ensures r != h
  {
    match h
    case Valentines => CincoDeMayo
    case CincoDeMayo => Thanksgiving
    case Thanksgiving => Halloween
    case Halloween => Christmas
    case Christmas => Valentines
  }

  /** The two buttons. */
  datatype Order = ByAlphabet | ByYear

  function Advance(order: Order, h: Holiday): Holiday {
    match order
    case ByAlphabet => AlphaHoliday(h)
    case ByYear => DateHoliday(h)
  }

  /** `n` presses of the same button. */
  function AdvanceN(order: Order, h: Holiday, n: nat): Holiday
    decreases n
  {
    if n == 0 then h else AdvanceN(order, Advance(order, h), n - 1)
  }

  /** The holidays in the order each button visits them, from Valentine's. */
  function Cycle(order: Order): seq<Holiday> {
    match order
    case ByAlphabet => [Valentines, CincoDeMayo, Christmas, Halloween, Thanksgiving]
    case ByYear => [Valentines, CincoDeMayo, Thanksgiving, Halloween, Christmas]
  }

  /** Distinct holidays show distinct emoji. */
  lemma EmojiInjective(a: Holiday, b: Holiday)
    ensures Emoji(a) == Emoji(b) ==> a == b
  {
    if a != b {
      assert Emoji(a)[0] != Emoji(b)[0];
    }
  }

  /** Each table is the single cycle `Cycle(order)`: it lists every holiday once, and
      each press moves to the next entry, the last one wrapping to the first. */
  lemma {:induction false} TableIsSingleCycle(order: Order, h: Holiday, i: nat)
    requires i < 5
    ensures |Cycle(order)| == 5 && h in Cycle(order)
    ensures forall m, n :: 0 <= m < n < 5 ==> Cycle(order)[m] != Cycle(order)[n]
    ensures Advance(order, Cycle(order)[i]) == Cycle(order)[(i + 1) % 5]
  {
  }

  /** Pressing previous and next cancel out: `PreviousHoliday` is the inverse table. */
  function PreviousHoliday(order: Order, h: Holiday): (p: Holiday)
    ensures Advance(order, p) == h
  {
    match order
    case ByAlphabet =>
      (match h
       case Christmas => CincoDeMayo
       case Halloween => Christmas
       case Thanksgiving => Halloween
       case Valentines => Thanksgiving
       case CincoDeMayo => Valentines)
    case ByYear =>
      (match h
       case CincoDeMayo => Valentines
       case Thanksgiving => CincoDeMayo
       case Halloween => Thanksgiving
       case Christmas => Halloween
       case Valentines => Christmas)
  }

  /** Both tables are bijections. */
  lemma AdvanceIsBijection(order: Order)
    ensures forall a, b :: Advance(order, a) == Advance(order, b) ==> a == b
    ensures forall h :: PreviousHoliday(order, Advance(order, h)) == h
    ensures forall h :: Advance(order, PreviousHoliday(order, h)) == h
  {
  }

  lemma {:induction false} AdvanceNStep(order: Order, h: Holiday, n: nat)
    ensures AdvanceN(order, h, n + 1) == Advance(order, AdvanceN(order, h, n))
    decreases n
  {
    if n > 0 {
      AdvanceNStep(order, Advance(order, h), n - 1);
    }
  }

  /** Five presses of either button return to the starting holiday, and fewer than
      five never do. */
  lemma CycleLengthIsFive(order: Order, h: Holiday)
    ensures AdvanceN(order, h, 5) == h
    ensures forall n :: 0 < n < 5 ==> AdvanceN(order, h, n) != h
  {
    AdvanceNStep(order, h, 0);
    AdvanceNStep(order, h, 1);
    AdvanceNStep(order, h, 2);
    AdvanceNStep(order, h, 3);
    AdvanceNStep(order, h, 4);
  }

  // ---------------------------------------------------------------------------
  // The order the button labels name, and the tables that follow it

  /** The holiday's name as the widget spells it. */
  function Name(h: Holiday): string {
    match h
    case Valentines => "Valentine's"
    case CincoDeMayo => "Cinco de Mayo"
    case Halloween => "Halloween"
    case Thanksgiving => "Thanksgiving"
    case Christmas => "Christmas"
  }

  /** The month the holiday falls in, with Thanksgiving in November as in the United
      States (Canada's falls in October, before Halloween). */
  function Month(h: Holiday): (m: int)
    ensures 1 <= m <= 12
  {
    match h
    case Valentines => 2
    case CincoDeMayo => 5
    case Halloween => 10
    case Thanksgiving => 11
    case Christmas => 12
  }

  /** Strict lexicographic order on character codes, as JavaScript compares strings. */
  predicate LexLess(a: string, b: string)
    decreases |a|
  {
    |b| > 0 && (|a| == 0 || a[0] < b[0] || (a[0] == b[0] && LexLess(a[1..], b[1..])))
  }

  /** Rank of the holiday's name among the five names, from the first by name. */
  function NameRank(h: Holiday): (r: int)
    ensures 0 <= r < 5
  {
    match h
    case Christmas => 0
    case CincoDeMayo => 1
    case Halloween => 2
    case Thanksgiving => 3
    case Valentines => 4
  }

  /** Two names whose first characters differ compare by those characters. */
  lemma LexLessByFirst(a: string, b: string)
    requires |a| > 0 && |b| > 0 && a[0] != b[0]
    ensures LexLess(a, b) <==> a[0] < b[0]
  {
  }

  /** The ranks sort the names: one name comes before another exactly when its rank
      is smaller. Only Christmas and Cinco de Mayo share a first letter. */
  lemma NameRankSortsNames(a: Holiday, b: Holiday)
    ensures LexLess(Name(a), Name(b)) <==> NameRank(a) < NameRank(b)
  {
    if a == b {
      LexLessIrreflexive(Name(a));
    } else if {a, b} == {Christmas, CincoDeMayo} {
      assert Name(a)[0] == Name(b)[0] == 'C';
      LexLessByFirst(Name(a)[1..], Name(b)[1..]);
    } else {
      assert Name(a)[0] != Name(b)[0];
      LexLessByFirst(Name(a), Name(b));
    }
  }

  lemma {:induction false} LexLessIrreflexive(a: string)
    ensures !LexLess(a, a)
    decreases |a|
  {
    if |a| > 0 {
      LexLessIrreflexive(a[1..]);
    }
  }

  /** `n` follows `h` in a cyclic order given by `key`: `n` is the next larger key
      after `h`, or `h` has the largest key and `n` the smallest. */
  predicate FollowsInOrder(key: Holiday -> int, h: Holiday, n: Holiday) {
    (key(h) < key(n) && forall x :: !(key(h) < key(x) < key(n)))
    || (forall x :: key(x) <= key(h) && key(n) <= key(x))
  }

  /** The alphabetical table the "Advance by Alphabet" label names: Christmas,
      Cinco de Mayo, Halloween, Thanksgiving, Valentine's and round again. */
  function SortedAlphaHoliday(h: Holiday): Holiday {
    match h
    case Christmas => CincoDeMayo
    case CincoDeMayo => Halloween
    case Halloween => Thanksgiving
    case Thanksgiving => Valentines
    case Valentines => Christmas
  }

  /** The calendar table the "Advance by Year" label names: Valentine's, Cinco de
      Mayo, Halloween, Thanksgiving, Christmas and round again. */
  function SortedDateHoliday(h: Holiday): Holiday {
    match h
    case Valentines => CincoDeMayo
    case CincoDeMayo => Halloween
    case Halloween => Thanksgiving
    case Thanksgiving => Christmas
    case Christmas => Valentines
  }

  /** The sorted tables move every holiday to the next one by name and by month,
      wrapping from the last to the first. */
  lemma SortedTablesFollowOrder(h: Holiday)
    ensures FollowsInOrder(NameRank, h, SortedAlphaHoliday(h))
    ensures FollowsInOrder(Month, h, SortedDateHoliday(h))
  {
    match h
    case Valentines =>
    case CincoDeMayo =>
    case Halloween =>
    case Thanksgiving =>
    case Christmas =>
  }

  /** The source's tables break both orders: by name Cinco de Mayo is followed by
      Christmas, which sorts before it; by month Cinco de Mayo skips Halloween and
      Thanksgiving goes back to Halloween. */
  lemma SourceTablesBreakOrder()
    ensures LexLess(Name(AlphaHoliday(CincoDeMayo)), Name(CincoDeMayo))
    ensures !FollowsInOrder(NameRank, CincoDeMayo, AlphaHoliday(CincoDeMayo))
    ensures !FollowsInOrder(Month, CincoDeMayo, DateHoliday(CincoDeMayo))
    ensures !FollowsInOrder(Month, Thanksgiving, DateHoliday(Thanksgiving))
  {
    NameRankSortsNames(Christmas, CincoDeMayo);
    assert NameRank(Valentines) > NameRank(CincoDeMayo);
    assert Month(CincoDeMayo) < Month(Halloween) < Month(Thanksgiving);
    assert Month(Christmas) > Month(Thanksgiving);
  }

  /** The sorted tables are single five-cycles too. */
  lemma SortedTablesCycle(h: Holiday)
    ensures SortedAlphaHoliday(SortedAlphaHoliday(SortedAlphaHoliday(SortedAlphaHoliday(SortedAlphaHoliday(h))))) == h
    ensures SortedDateHoliday(SortedDateHoliday(SortedDateHoliday(SortedDateHoliday(SortedDateHoliday(h))))) == h
    ensures SortedAlphaHoliday(h) != h && SortedDateHoliday(h) != h
  {
  }

  /** The widget's state: the holiday shown. */
  class HolidayCycler {
    var holiday: Holiday

    /** Starts at Valentine's. */
    constructor ()
      ensures holiday == Valentines
    {
      holiday := Valentines;
    }

    /** "Advance by Alphabet". */
    method AdvanceByAlphabet()
      modifies this
      ensures holiday == AlphaHoliday(old(holiday))
    {
      holiday := AlphaHoliday(holiday);
    }

    /** "Advance by Year". */
    method AdvanceByYear()
      modifies this
      ensures holiday == DateHoliday(old(holiday))
    {
      holiday := DateHoliday(holiday);
    }
  }
}
