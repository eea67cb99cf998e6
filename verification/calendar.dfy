/** The fixed calendar tables shared by the bar chart and the box plot:
    month number to full English month name (strftime's %B) and to its
    three-letter abbreviation (strftime's %b), in the C locale. */
module Calendar {
  import opened Optional

  /** A calendar month number, 1 (January) to 12 (December). */
  type Month = m: int | 1 <= m <= 12 witness 1

  /** Full month name, as `strftime('%B')` prints it; MonthNumber reads it
      back. */
  function MonthName(m: Month): (name: string)
    ensures MonthNumber(name) == Some(m)
  {
    match m
    case 1 => "January"
    case 2 => "February"
    case 3 => "March"
    case 4 => "April"
    case 5 => "May"
    case 6 => "June"
    case 7 => "July"
    case 8 => "August"
    case 9 => "September"
    case 10 => "October"
    case 11 => "November"
    case 12 => "December"
  }

  /** Three-letter month abbreviation, as `strftime('%b')` prints it: the
      first three letters of the full name. */
  function MonthAbbrev(m: Month): (abbrev: string)
    ensures |abbrev| == 3
    ensures abbrev == MonthName(m)[..3]
  {
    match m
    case 1 => "Jan"
    case 2 => "Feb"
    case 3 => "Mar"
    case 4 => "Apr"
    case 5 => "May"
    case 6 => "Jun"
    case 7 => "Jul"
    case 8 => "Aug"
    case 9 => "Sep"
    case 10 => "Oct"
    case 11 => "Nov"
    case 12 => "Dec"
  }

  /** The `%B` table read backwards: the month a full name stands for, if
      any. It serves the proofs that the table is injective and that the
      legend's names keep the order of their month numbers. */
  function MonthNumber(name: string): (m: Option<Month>)
  {
    if name == "January" then Some(1)
    else if name == "February" then Some(2)
    else if name == "March" then Some(3)
    else if name == "April" then Some(4)
    else if name == "May" then Some(5)
    else if name == "June" then Some(6)
    else if name == "July" then Some(7)
    else if name == "August" then Some(8)
    else if name == "September" then Some(9)
    else if name == "October" then Some(10)
    else if name == "November" then Some(11)
    else if name == "December" then Some(12)
    else None
  }

  /** Every name MonthNumber accepts is printed back unchanged by MonthName. */
  lemma {:induction false} MonthNumberRoundTrip(name: string)
    ensures MonthNumber(name).Some? ==> MonthName(MonthNumber(name).value) == name
  {
  }

  /** Month names are an injective labelling of the twelve months. */
  lemma {:induction false} MonthNameInjective(m1: Month, m2: Month)
    ensures MonthName(m1) == MonthName(m2) <==> m1 == m2
  {
  }

  /** Abbreviations are injective too, so a month-abbreviation key identifies
      its month number. */
  lemma {:induction false} MonthAbbrevInjective(m1: Month, m2: Month)
    ensures MonthAbbrev(m1) == MonthAbbrev(m2) <==> m1 == m2
  {
    if MonthAbbrev(m1) == MonthAbbrev(m2) {
      match m1
      case 1 => assert MonthAbbrev(m2) == "Jan";
      case 2 => assert MonthAbbrev(m2) == "Feb";
      case 3 => assert MonthAbbrev(m2) == "Mar";
      case 4 => assert MonthAbbrev(m2) == "Apr";
      case 5 => assert MonthAbbrev(m2) == "May";
      case 6 => assert MonthAbbrev(m2) == "Jun";
      case 7 => assert MonthAbbrev(m2) == "Jul";
      case 8 => assert MonthAbbrev(m2) == "Aug";
      case 9 => assert MonthAbbrev(m2) == "Sep";
      case 10 => assert MonthAbbrev(m2) == "Oct";
      case 11 => assert MonthAbbrev(m2) == "Nov";
      case 12 => assert MonthAbbrev(m2) == "Dec";
    }
  }
}
