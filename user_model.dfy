/**
 * The birthday matcher of the `User` model: `getTodayBirthdays` builds the key `MM-DD` from
 * today's month and day and selects every stored row whose `substr(date_of_birth, 6, 5)`
 * equals it. Today's date is a parameter and the table read is a `Result`.
 */
module UserModel {
  import opened Wrappers
  import opened Text

  /** A row of the `users` table (every column is NOT NULL except `created_at`, which has a default). */
  datatype User = User(id: int, username: string, email: string, dateOfBirth: string, createdAt: string)

  /** The value of a two-digit field. */
  function TwoDigitValue(s: string): nat
    requires |s| == 2 && AllDigits(s)
  {
    10 * DigitValue(s[0]) + DigitValue(s[1])
  }

  /** `String(n).padStart(2, '0')` for `n < 100`: the two-digit field whose value is `n`. */
  function ZeroPad2(n: nat): (r: string)
    requires n < 100
    ensures |r| == 2 && AllDigits(r) && TwoDigitValue(r) == n
  {
    TwoDigitPad(n);
    var r := PadStart(ToDecimal(n), 2, '0');
    assert r == [Digit(n / 10), Digit(n % 10)];
    assert DigitValue(r[0]) == n / 10;
    assert DigitValue(r[1]) == n % 10;
    r
  }

  /**
   * The query parameter `${month}-${day}`, each part zero-padded to two digits; `month` and
   * `day` are what `Date.getMonth() + 1` and `Date.getDate()` can return. The key is five
   * characters: the month's two digits, a dash and the day's two digits.
   */
  function MonthDayKey(month: nat, day: nat): (key: string)
    requires 1 <= month <= 12 && 1 <= day <= 31
    ensures |key| == 5 && key[2] == '-'
    ensures AllDigits(key[..2]) && TwoDigitValue(key[..2]) == month
    ensures AllDigits(key[3..]) && TwoDigitValue(key[3..]) == day
  {
    var mm, dd := ZeroPad2(month), ZeroPad2(day);
    var key := mm + "-" + dd;
    assert key[..2] == mm && key[3..] == dd;
    key
  }

  /** A month or a day below 10 gets a leading `0`. */
  lemma KeyLeadingZeros(month: nat, day: nat)
    requires 1 <= month <= 12 && 1 <= day <= 31
    ensures month < 10 ==> MonthDayKey(month, day)[0] == '0'
    ensures day < 10 ==> MonthDayKey(month, day)[3] == '0'
  {
    var key := MonthDayKey(month, day);
    assert key[..2][0] == key[0] && key[3..][0] == key[3];
  }

  /** Different days give different keys. */
  lemma KeyInjective(m1: nat, d1: nat, m2: nat, d2: nat)
    requires 1 <= m1 <= 12 && 1 <= d1 <= 31 && 1 <= m2 <= 12 && 1 <= d2 <= 31
    requires MonthDayKey(m1, d1) == MonthDayKey(m2, d2)
    ensures m1 == m2 && d1 == d2
  {
    var k := MonthDayKey(m1, d1);
    assert TwoDigitValue(k[..2]) == m1 && TwoDigitValue(k[3..]) == d1;
  }

  /** The `substr(date_of_birth, 6, 5)` the query compares. */
  function DateKey(dateOfBirth: string): (r: string)
    ensures |r| <= 5
    ensures |dateOfBirth| >= 10 ==> r == dateOfBirth[5..10]
  {
    SqliteSubstr(dateOfBirth, 6, 5)
  }

  /** The `WHERE` condition of the query, for the bound key. */
  predicate IsBirthdayOn(u: User, key: string)
    ensures IsBirthdayOn(u, key) ==> |key| <= 5
  {
    DateKey(u.dateOfBirth) == key
  }

  /** The rows the query returns: the stored rows satisfying the condition, in scan order. */
  function Select(rows: seq<User>, key: string): (r: seq<User>)
    ensures |r| <= |rows|
    ensures forall u :: u in r <==> u in rows && IsBirthdayOn(u, key)
  {
    if rows == [] then []
    else
      assert rows == [rows[0]] + rows[1..];
      (if IsBirthdayOn(rows[0], key) then [rows[0]] else []) + Select(rows[1..], key)
  }

  /** No matching row is dropped or duplicated: each keeps its multiplicity in the table, every other has none. */
  lemma {:induction false} SelectMultiplicity(rows: seq<User>, key: string, u: User)
    ensures multiset(Select(rows, key))[u] == if IsBirthdayOn(u, key) then multiset(rows)[u] else 0
  {
    if rows != [] {
      SelectMultiplicity(rows[1..], key, u);
      assert rows == [rows[0]] + rows[1..];
    }
  }

  /** Selection keeps scan order: it distributes over concatenation of the table. */
  lemma {:induction false} SelectAppend(a: seq<User>, b: seq<User>, key: string)
    ensures Select(a + b, key) == Select(a, key) + Select(b, key)
  {
    if a != [] {
      assert (a + b)[0] == a[0] && (a + b)[1..] == a[1..] + b;
      SelectAppend(a[1..], b, key);
    } else {
      assert a + b == b;
    }
  }

  /**
   * `User.getTodayBirthdays` for today's `month` and `day`, where `table` is the outcome of
   * reading the `users` table: a read error is passed on with no rows, otherwise the result
   * is exactly the matching rows (possibly none, which is not an error).
   */
  function GetTodayBirthdays(month: nat, day: nat, table: Result<seq<User>, string>): (r: Result<seq<User>, string>)
    requires 1 <= month <= 12 && 1 <= day <= 31
    ensures r.Failure? <==> table.Failure?
    ensures table.Failure? ==> r.error == table.error
    ensures table.Success? ==> forall u :: u in r.value <==>
      u in table.value && DateKey(u.dateOfBirth) == MonthDayKey(month, day)
  {
    match table
    case Failure(e) => Failure(e)
    case Success(rows) => Success(Select(rows, MonthDayKey(month, day)))
  }

  /** The shape `^\d{4}-\d{2}-\d{2}$` that registration admits for `dateOfBirth`. */
  predicate IsIsoDateShape(s: string)
  {
    && |s| == 10
    && AllDigits(s[..4]) && s[4] == '-' && AllDigits(s[5..7]) && s[7] == '-' && AllDigits(s[8..])
  }

  /**
   * For a stored date of the registered shape, the compared substring is its `MM-DD` part,
   * and the row matches exactly when its month and day fields denote today's month and day.
   */
  lemma IsoDateMatch(dateOfBirth: string, month: nat, day: nat)
    requires IsIsoDateShape(dateOfBirth)
    requires 1 <= month <= 12 && 1 <= day <= 31
    ensures DateKey(dateOfBirth) == dateOfBirth[5..10]
    ensures DateKey(dateOfBirth) == MonthDayKey(month, day) <==>
      TwoDigitValue(dateOfBirth[5..7]) == month && TwoDigitValue(dateOfBirth[8..]) == day
  {
    var s := dateOfBirth;
    var key := MonthDayKey(month, day);
    var md := s[5..10];
    assert DateKey(s) == md;
    assert md[..2] == s[5..7] && md[3..] == s[8..] && md[2] == '-';
    if TwoDigitValue(s[5..7]) == month && TwoDigitValue(s[8..]) == day {
      TwoDigitsDetermined(md[..2], key[..2]);
      TwoDigitsDetermined(md[3..], key[3..]);
      assert md == md[..2] + [md[2]] + md[3..];
      assert key == key[..2] + [key[2]] + key[3..];
    }
  }

  lemma TwoDigitsDetermined(a: string, b: string)
    requires |a| == 2 && AllDigits(a) && |b| == 2 && AllDigits(b)
    requires TwoDigitValue(a) == TwoDigitValue(b)
    ensures a == b
  {
    assert DigitValue(a[0]) == DigitValue(b[0]);
    assert a[0] as int == b[0] as int && a[1] as int == b[1] as int;
  }

  /** A stored date shorter than ten characters never matches. */
  lemma ShortDateNeverMatches(dateOfBirth: string, month: nat, day: nat)
    requires |dateOfBirth| < 10
    requires 1 <= month <= 12 && 1 <= day <= 31
    ensures DateKey(dateOfBirth) != MonthDayKey(month, day)
  {
    assert |DateKey(dateOfBirth)| < 5;
  }

  /** The birth year is ignored: dates that differ only in their first four characters match together. */
  lemma YearIgnored(a: User, b: User, key: string)
    requires |a.dateOfBirth| == |b.dateOfBirth| >= 4
    requires a.dateOfBirth[4..] == b.dateOfBirth[4..]
    ensures IsBirthdayOn(a, key) <==> IsBirthdayOn(b, key)
  {
    var s, t := a.dateOfBirth, b.dateOfBirth;
    forall k | 4 <= k < |s| ensures s[k] == t[k] {
      assert s[k] == s[4..][k - 4] && t[k] == t[4..][k - 4];
    }
    assert DateKey(s) == DateKey(t);
  }

  /** Three stored users, A and B born on 15 March and C on 16 March: on 15 March only A and B are selected, in order. */
  lemma MarchFifteenthExample()
    ensures var a := User(1, "A", "a@example.com", "1990-03-15", "");
      var b := User(2, "B", "b@example.com", "1985-03-15", "");
      var c := User(3, "C", "c@example.com", "2000-03-16", "");
      GetTodayBirthdays(3, 15, Success([a, b, c])) == Success([a, b])
  {
    var a := User(1, "A", "a@example.com", "1990-03-15", "");
    var b := User(2, "B", "b@example.com", "1985-03-15", "");
    var c := User(3, "C", "c@example.com", "2000-03-16", "");
    MarchFifteenthDates();
    SelectTwoOfThree(a, b, c, MonthDayKey(3, 15));
  }

  lemma MarchFifteenthDates()
    ensures DateKey("1990-03-15") == MonthDayKey(3, 15)
    ensures DateKey("1985-03-15") == MonthDayKey(3, 15)
    ensures DateKey("2000-03-16") != MonthDayKey(3, 15)
  {
    var key := MonthDayKey(3, 15);
    TwoDigitsDetermined(key[..2], "03");
    TwoDigitsDetermined(key[3..], "15");
    assert key == key[..2] + "-" + key[3..] == "03-15";
    assert DateKey("2000-03-16")[4] == '6';
  }

  lemma SelectTwoOfThree(a: User, b: User, c: User, key: string)
    requires IsBirthdayOn(a, key) && IsBirthdayOn(b, key) && !IsBirthdayOn(c, key)
    ensures Select([a, b, c], key) == [a, b]
  {
    assert [a, b, c][1..] == [b, c] && [b, c][1..] == [c] && [c][1..] == [];
    assert Select([c], key) == [];
    assert Select([b, c], key) == [b];
  }
}
