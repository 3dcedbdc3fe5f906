/**
 * The JSON values the journal stores in its records, and the records
 * themselves: open string-keyed objects. Book records carry title, author,
 * year, genres, status, rating, notes, entry_date and last_updated; quote
 * records carry text, book_title, book_id, page_number, tags and entry_date.
 */
module Records {
  import opened Dicts

  /** Strings, integers (the rating) and lists of strings (genres, tags). */
  datatype Value = Text(text: string) | Number(number: int) | TextList(texts: seq<string>)

  type Record = map<string, Value>

  /** One user's books or quotes: record id to record, in insertion order. */
  type Collection = Dict<string, Record>

  /** `record.get(key, dflt)`. */
  function Field(rec: Record, key: string, dflt: Value): Value {
    if key in rec then rec[key] else dflt
  }

  /** `record.get(key, dflt)` where the stored value, if any, is a string. */
  function TextField(rec: Record, key: string, dflt: string): string {
    if key in rec && rec[key].Text? then rec[key].text else dflt
  }

  /**
   * The items of `for x in record.get(key, [])`: the strings of a list, or
   * the characters of a string, each as a one-character string.
   */
  function Items(rec: Record, key: string): (items: seq<string>)
    ensures key in rec && rec[key].TextList? ==> items == rec[key].texts
    ensures key in rec && rec[key].Text? ==>
      |items| == |rec[key].text| && forall i :: 0 <= i < |items| ==> items[i] == [rec[key].text[i]]
    ensures key !in rec ==> items == []
  {
    if key !in rec then []
    else match rec[key]
      case TextList(texts) => texts
      case Text(s) => seq(|s|, i requires 0 <= i < |s| => [s[i]])
      case Number(_) => []
  }

  /** The value at `key`, if any, is a string (otherwise Python raises a TypeError). */
  predicate HoldsText(rec: Record, key: string) {
    key in rec ==> rec[key].Text?
  }

  /** The value at `key`, if any, can be iterated: a list or a string (iterating an integer raises a TypeError). */
  predicate HoldsIterable(rec: Record, key: string) {
    key in rec ==> !rec[key].Number?
  }

  /** The value can be a dict key: a string or an integer (a list is unhashable and raises a TypeError). */
  predicate Hashable(v: Value) {
    !v.TextList?
  }

  /** The value at `key`, if any, is an integer. */
  predicate HoldsNumber(rec: Record, key: string) {
    key in rec ==> rec[key].Number?
  }
}
