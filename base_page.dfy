/** The paging and ordering parameters of a query page, and the navigation
    record derived from them. Java's boxed Integer and String fields may be
    null, so they are `Option`s. */
module Paging {
  import opened Wrappers
  import opened Text

  /** The navigation record a page hands out. Its class is not part of this
      model; its three properties are taken to start out null. */
  class Pager {
    var pageId: Option<int32>
    var pageSize: Option<int32>
    var orderField: Option<string>

    constructor ()
      ensures pageId.None? && pageSize.None? && orderField.None?
    {
      pageId := None;
      pageSize := None;
      orderField := None;
    }

    method SetPageId(v: Option<int32>)
      modifies this
      ensures pageId == v && pageSize == old(pageSize) && orderField == old(orderField)
    {
      pageId := v;
    }

    method SetPageSize(v: Option<int32>)
      modifies this
      ensures pageSize == v && pageId == old(pageId) && orderField == old(orderField)
    {
      pageSize := v;
    }

    method SetOrderField(v: Option<string>)
      modifies this
      ensures orderField == v && pageId == old(pageId) && pageSize == old(pageSize)
    {
      orderField := v;
    }
  }

  /** The request parameters of a page, as one value. */
  datatype PageState = PageState(
    page: Option<int32>,
    pageSize: Option<int32>,
    rows: Option<int32>,
    orderBy: Option<string>,
    order: Option<string>,
    q: Option<string>,
    sort: Option<string>)

  /** `s != null && s.trim().length() > 0`. */
  predicate HasText(s: Option<string>)
  {
    s.Some? && |Trim(s.value)| > 0
  }

  lemma HasTextMeansVisibleChar(s: Option<string>)
    ensures HasText(s) <==> s.Some? && exists i :: 0 <= i < |s.value| && ' ' < s.value[i]
  {
    if s.Some? {
      TrimNonEmpty(s.value);
    }
  }

  /** The page size in effect: `rows` (the alias some clients send) wins
      over `pageSize` whenever it is set. */
  function EffectivePageSize(st: PageState): (r: Option<int32>)
    ensures st.rows.Some? ==> r == st.rows
    ensures st.rows.None? ==> r == st.pageSize
  {
    if st.rows.Some? then st.rows else st.pageSize
  }

  /** The order clause: the column when it has text, followed by a space and
      the direction when that has text too; empty when there is no column. */
  function OrderFieldOf(orderBy: Option<string>, order: Option<string>): (r: string)
    ensures !HasText(orderBy) ==> r == ""
    ensures HasText(orderBy) && !HasText(order) ==> r == orderBy.value
    ensures HasText(orderBy) && HasText(order) ==> r == orderBy.value + " " + order.value
  {
    if !HasText(orderBy) then ""
    else if HasText(order) then orderBy.value + " " + order.value
    else orderBy.value
  }

  /** The clause is empty exactly when there is no column. */
  lemma OrderFieldEmpty(orderBy: Option<string>, order: Option<string>)
    ensures OrderFieldOf(orderBy, order) == "" <==> !HasText(orderBy)
  {
    if HasText(orderBy) {
      assert |Trim(orderBy.value)| <= |orderBy.value|;
    }
  }

  /** The column is kept as given (untrimmed) at the front. */
  lemma OrderFieldStartsWithColumn(orderBy: Option<string>, order: Option<string>)
    requires HasText(orderBy)
    ensures StartsWith(OrderFieldOf(orderBy, order), orderBy.value)
  {
    var r := OrderFieldOf(orderBy, order);
    assert r[..|orderBy.value|] == orderBy.value;
  }

  /** The direction adds itself and one space, and nothing is added without
      one. */
  lemma OrderFieldLength(orderBy: Option<string>, order: Option<string>)
    requires HasText(orderBy)
    ensures |OrderFieldOf(orderBy, order)| == |orderBy.value| + (if HasText(order) then 1 + |order.value| else 0)
  {
  }

  class BasePage {
    var page: Option<int32>
    var pageSize: Option<int32>
    var rows: Option<int32>
    var orderBy: Option<string>
    var order: Option<string>
    var q: Option<string>
    var sort: Option<string>
    var pager: Pager

    function State(): PageState
      reads this
    {
      PageState(page, pageSize, rows, orderBy, order, q, sort)
    }

    /** A new page: the first page of ten rows, nothing else set. */
    constructor ()
      ensures State() == PageState(Some(1), Some(10), None, None, None, None, None)
      ensures fresh(pager)
    {
      page := Some(1);
      pageSize := Some(10);
      rows := None;
      orderBy := None;
      order := None;
      q := None;
      sort := None;
      pager := new Pager();
    }

    function GetPage(): (r: Option<int32>)
      reads this
      ensures r == State().page
    {
      page
    }

    /** getPageSize: rows when set, else pageSize. */
    function GetPageSize(): (r: Option<int32>)
      reads this
      ensures r == EffectivePageSize(State())
    {
      if rows.Some? then rows else pageSize
    }

    /** getRows: pageSize when rows is unset, else rows. */
    function GetRows(): (r: Option<int32>)
      reads this
      ensures r == EffectivePageSize(State())
    {
      if rows.None? then pageSize else rows
    }

    method SetPage(v: Option<int32>)
      modifies this
      ensures State() == old(State()).(page := v) && pager == old(pager)
    {
      page := v;
    }

    /** setPageSize; while rows is set it does not change the page size in
        effect. */
    method SetPageSize(v: Option<int32>)
      modifies this
      ensures State() == old(State()).(pageSize := v) && pager == old(pager)
      ensures old(rows).Some? ==> GetPageSize() == old(GetPageSize())
    {
      pageSize := v;
    }

    method SetRows(v: Option<int32>)
      modifies this
      ensures State() == old(State()).(rows := v) && pager == old(pager)
    {
      rows := v;
    }

    method SetOrderBy(v: Option<string>)
      modifies this
      ensures State() == old(State()).(orderBy := v) && pager == old(pager)
    {
      orderBy := v;
    }

    method SetOrder(v: Option<string>)
      modifies this
      ensures State() == old(State()).(order := v) && pager == old(pager)
    {
      order := v;
    }

    method SetQ(v: Option<string>)
      modifies this
      ensures State() == old(State()).(q := v) && pager == old(pager)
    {
      q := v;
    }

    method SetSort(v: Option<string>)
      modifies this
      ensures State() == old(State()).(sort := v) && pager == old(pager)
    {
      sort := v;
    }

    method SetPager(p: Pager)
      modifies this
      ensures State() == old(State()) && pager == p
    {
      pager := p;
    }

    /** getPager: fills the page's own pager in place and hands out that
        same object. */
    method GetPager() returns (p: Pager)
      modifies pager
      ensures p == pager
      ensures p.pageId == page
      ensures p.pageSize == EffectivePageSize(State())
      ensures p.orderField == Some(OrderFieldOf(orderBy, order))
    {
      pager.SetPageId(GetPage());
      pager.SetPageSize(GetPageSize());
      if GetRows().Some? {
        pager.SetPageSize(GetRows());
      }
      var orderField := "";
      if orderBy.Some? && |Trim(orderBy.value)| > 0 {
        orderField := orderBy.value;
      }
      if |Trim(orderField)| > 0 && (order.Some? && |Trim(order.value)| > 0) {
        orderField := orderField + " " + order.value;
      }
      pager.SetOrderField(Some(orderField));
      return pager;
    }
  }

  /** getPageSize and getRows always agree. */
  lemma PageSizeAgrees(p: BasePage)
    ensures p.GetPageSize() == p.GetRows()
  {
  }
}
