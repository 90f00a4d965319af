/** The template filters of public/templatetags/custom_filters.py. */
module Filters {
  import opened Common

  /** `get_item`: `None` for a missing dictionary, otherwise `dict.get(key)`. */
  function GetItem<K, V>(dictionary: Option<map<K, V>>, key: K): (r: Option<V>)
    ensures r.Some? <==> dictionary.Some? && key in dictionary.value
    ensures r.Some? ==> r.value == dictionary.value[key]
  {
    match dictionary
    case None => None
    case Some(d) => if key in d then Some(d[key]) else None
  }

  /** The items whose status (as read by `statusOf`) equals `status`, in order. */
  function Keep<T>(items: seq<T>, statusOf: T -> Option<string>, status: string): seq<T>
  {
    if items == [] then []
    else (if statusOf(items[0]) == Some(status) then [items[0]] else []) + Keep(items[1..], statusOf, status)
  }

  /** A query set or a plain list, as the filters receive them. */
  datatype Collection<T> = QuerySet(rows: seq<T>) | PlainList(items: seq<T>)

  /** `filter_status`: on a query set, the ORM filter on the `status` field; on a
      list, `getattr(item, 'status', None) == status`, where `statusOf` gives
      `None` for an item without the attribute. Both keep the original order. */
  function FilterStatus<T>(c: Collection<T>, statusOf: T -> Option<string>, status: string): (r: seq<T>)
    ensures |r| <= |if c.QuerySet? then c.rows else c.items|
  {
    KeepMembers(if c.QuerySet? then c.rows else c.items, statusOf, status);
    match c
    case QuerySet(rows) => Keep(rows, statusOf, status)
    case PlainList(items) => Keep(items, statusOf, status)
  }

  /** `filter_by_status`: every item has a `status`, compared for equality. */
  function FilterByStatus<T>(items: seq<T>, statusOf: T -> string, status: string): (r: seq<T>)
    ensures |r| <= |items|
  {
    KeepMembers(items, (x: T) => Some(statusOf(x)), status);
    Keep(items, (x: T) => Some(statusOf(x)), status)
  }

  /** The kept items are exactly the input items with the status; the output is
      never longer than the input. */
  lemma {:induction false} KeepMembers<T>(items: seq<T>, statusOf: T -> Option<string>, status: string)
    ensures |Keep(items, statusOf, status)| <= |items|
    ensures forall x :: x in Keep(items, statusOf, status) <==> x in items && statusOf(x) == Some(status)
    decreases |items|
  {
    if items != [] {
      KeepMembers(items[1..], statusOf, status);
      assert items == [items[0]] + items[1..];
    }
  }

  /** Filtering preserves order: it distributes over concatenation. */
  lemma {:induction false} KeepAppend<T>(a: seq<T>, b: seq<T>, statusOf: T -> Option<string>, status: string)
    ensures Keep(a + b, statusOf, status) == Keep(a, statusOf, status) + Keep(b, statusOf, status)
    decreases |a|
  {
    if a != [] {
      assert (a + b)[1..] == a[1..] + b;
      KeepAppend(a[1..], b, statusOf, status);
    } else {
      assert a + b == b;
    }
  }

  /** Filtering twice with the same status gives the same list. */
  lemma {:induction false} KeepIdempotent<T>(items: seq<T>, statusOf: T -> Option<string>, status: string)
    ensures Keep(Keep(items, statusOf, status), statusOf, status) == Keep(items, statusOf, status)
    decreases |items|
  {
    if items != [] {
      var head := if statusOf(items[0]) == Some(status) then [items[0]] else [];
      KeepAppend(head, Keep(items[1..], statusOf, status), statusOf, status);
      KeepIdempotent(items[1..], statusOf, status);
      if head != [] {
        assert Keep(head, statusOf, status) == head + Keep(head[1..], statusOf, status);
      }
    }
  }

  lemma FilterStatusProperties<T>(c: Collection<T>, statusOf: T -> Option<string>, status: string)
    ensures var input := if c.QuerySet? then c.rows else c.items;
            var r := FilterStatus(c, statusOf, status);
            && |r| <= |input|
            && (forall x :: x in r <==> x in input && statusOf(x) == Some(status))
            && FilterStatus(PlainList(r), statusOf, status) == r
  {
    var input := if c.QuerySet? then c.rows else c.items;
    KeepMembers(input, statusOf, status);
    KeepIdempotent(input, statusOf, status);
  }

  lemma FilterByStatusProperties<T>(items: seq<T>, statusOf: T -> string, status: string)
    ensures var r := FilterByStatus(items, statusOf, status);
            && |r| <= |items|
            && (forall x :: x in r <==> x in items && statusOf(x) == status)
            && FilterByStatus(r, statusOf, status) == r
  {
    KeepMembers(items, (x: T) => Some(statusOf(x)), status);
    KeepIdempotent(items, (x: T) => Some(statusOf(x)), status);
  }
}
