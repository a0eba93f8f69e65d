/**
 * The age rule of `calcAge` and both copies of `ageFromBirth`: whole years
 * from the birth date to today, counting a year only once its anniversary
 * has been reached.
 */
module Age {
  import opened Domain

  /** Lexicographic order on (year, month, day). */
  predicate DateLeq(a: Date, b: Date) {
    a.year < b.year || (a.year == b.year && (a.month < b.month || (a.month == b.month && a.day <= b.day)))
  }

  predicate DateLess(a: Date, b: Date) {
    !DateLeq(b, a)
  }

  /** The `k`-th anniversary of a date. */
  function AddYears(d: Date, k: int): Date {
    Date(d.year + k, d.month, d.day)
  }

  /**
   * Year difference, less one when today's (month, day) comes before the
   * birthday's. The result is the number of anniversaries reached: the
   * `age`-th anniversary is not after today and the next one is after today.
   */
  function CalcAge(birth: Date, today: Date): (age: int)
    ensures DateLeq(AddYears(birth, age), today)
    ensures DateLess(today, AddYears(birth, age + 1))
  {
    var age := today.year - birth.year;
    var m := today.month - birth.month;
    if m < 0 || (m == 0 && today.day < birth.day) then age - 1 else age
  }

  /** Later anniversaries are later dates. */
  lemma AnniversaryMonotone(d: Date, j: int, k: int)
    requires j <= k
    ensures DateLeq(AddYears(d, j), AddYears(d, k))
  {
  }

  /** The anniversary characterisation determines the age uniquely. */
  lemma AgeIsUnique(birth: Date, today: Date, k: int)
    requires DateLeq(AddYears(birth, k), today)
    requires DateLess(today, AddYears(birth, k + 1))
    ensures CalcAge(birth, today) == k
  {
    var a := CalcAge(birth, today);
    if a < k {
      AnniversaryMonotone(birth, a + 1, k);
    } else if a > k {
      AnniversaryMonotone(birth, k + 1, a);
    }
  }

  /** Being younger than `limit` means today is before the `limit`-th birthday. */
  lemma YoungerThanIff(birth: Date, today: Date, limit: int)
    ensures CalcAge(birth, today) < limit <==> DateLess(today, AddYears(birth, limit))
  {
    var a := CalcAge(birth, today);
    if a < limit {
      AnniversaryMonotone(birth, a + 1, limit);
    } else {
      AnniversaryMonotone(birth, limit, a);
    }
  }

  /** One day short of the 15th birthday the age is still 14. */
  lemma DayBeforeFifteenthBirthday()
    ensures CalcAge(Date(2010, 1, 1), Date(2024, 6, 1)) == 14
    ensures CalcAge(Date(2009, 6, 2), Date(2024, 6, 1)) == 14
    ensures CalcAge(Date(2009, 6, 1), Date(2024, 6, 1)) == 15
  {
  }
}
