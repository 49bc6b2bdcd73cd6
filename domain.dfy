/** Values shared by the two reconcilers and the dashboards: calendar dates and user records. */
module Domain {

  /** A calendar date. The SQLite column holds it as 'YYYY-MM-DD' text, whose comparison
      is this lexicographic order. */
  datatype Date = Date(year: int, month: int, day: int)

  predicate DateLe(a: Date, b: Date) {
    a.year < b.year || (a.year == b.year && (a.month < b.month || (a.month == b.month && a.day <= b.day)))
  }

  predicate DateLt(a: Date, b: Date) {
    DateLe(a, b) && a != b
  }

  /** `strftime('%Y', date) = year AND strftime('%m', date) = month`. */
  predicate InMonth(d: Date, year: int, month: int) {
    d.year == year && d.month == month
  }

  /** A row of the Users table as the reconcilers read it. */
  datatype User = User(id: nat, name: string, role: string)
}
