/** The dashboard component's state and the handlers that change it: the
    page number, page size and date filters behind the list request, the
    loaded page of workdays and its total, and the notification list. */
module Dashboard {
  import opened JsValues
  import Decimal
  import opened Pagination
  import opened Query
  import opened Status
  import opened Toasts

  /** A page of workdays as the list request returns it. */
  datatype PageData = PageData(items: seq<Workday>, total: nat)

  class DashboardState {
    var page: int
    var limit: int
    var from: Option<string>
    var to: Option<string>
    var workdays: seq<Workday>
    var total: nat
    var toasts: seq<Toast>

    /** The page number never drops below one, the page size is one of the
        select's options, and an empty date input is stored as unset. */
    ghost predicate Valid()
      reads this
    {
      && page >= 1
      && IsPageSize(limit)
      && from != Some("")
      && to != Some("")
    }

    /** The initial state: page 1 of 10 entries, no filters, nothing loaded. */
    constructor ()
      ensures Valid()
      ensures page == 1 && limit == DefaultLimit && from == None && to == None
      ensures workdays == [] && total == 0 && toasts == []
    {
      page := 1;
      limit := DefaultLimit;
      from := None;
      to := None;
      workdays := [];
      total := 0;
      toasts := [];
    }

    /** "Page p of n" for the current state. */
    function ShownPageCount(): (n: int)
      reads this
      requires Valid()
      ensures n >= 1
      ensures total <= n * limit
      ensures total > 0 ==> (n - 1) * limit < total
      ensures total == 0 ==> n == 1
    {
      DisplayedPageCount(total, limit)
    }

    /** Whether Previous and Next are disabled in the current state. */
    function PrevNextDisabled(): (r: (bool, bool))
      reads this
      requires Valid()
      ensures r.0 <==> page == 1
      ensures r.1 <==> page * limit >= total
    {
      NextDisabledIffPageFull(page, total, limit);
      (PrevDisabled(page), NextDisabled(page, total, limit))
    }

    /** The buttons of the Current Status card for the given date: End Day
        follows working, End Break follows the open break, exactly one of
        Start Day and End Day is enabled, and Start Break is enabled only
        while End Day is and End Break is not. */
    function StatusButtons(today: string): (d: Disabled)
      reads this
      ensures !d.endDay <==> IsWorkingToday(workdays, today)
      ensures !d.endBreak <==> OnBreakToday(workdays, today)
      ensures !d.startDay <==> d.endDay
      ensures !d.startBreak <==> !d.endDay && d.endBreak
    {
      TodaysButtons(workdays, today)
    }

    /** A click on Next: without effect while the button is disabled,
        otherwise the page moves forward by one onto a page that has entries. */
    method NextPage()
      requires Valid()
      modifies this`page
      ensures Valid()
      ensures if NextDisabled(old(page), total, limit) then page == old(page)
              else page == old(page) + 1 && (page - 1) * limit < total
    {
      if !NextDisabled(page, total, limit) {
        NextLeadsToNonEmptyPage(page, total, limit);
        page := page + 1;
      }
    }

    /** A click on Previous: without effect on page one, otherwise the page
        moves back by one and stays at least one. */
    method PrevPage()
      requires Valid()
      modifies this`page
      ensures Valid()
      ensures if PrevDisabled(old(page)) then page == old(page) else page == old(page) - 1
    {
      if !PrevDisabled(page) {
        page := page - 1;
      }
    }

    /** A choice in the Per Page select: back to page one with the new size. */
    method SetLimit(choice: int)
      requires Valid() && IsPageSize(choice)
      modifies this`page, this`limit
      ensures Valid()
      ensures page == 1 && limit == choice
    {
      page := 1;
      limit := choice;
    }

    /** A change of the From Date input: an empty value clears the filter. */
    method SetFrom(value: string)
      requires Valid()
      modifies this`from
      ensures Valid()
      ensures from == if value == "" then None else Some(value)
    {
      from := if value == "" then None else Some(value);
    }

    /** A change of the To Date input: an empty value clears the filter. */
    method SetTo(value: string)
      requires Valid()
      modifies this`to
      ensures Valid()
      ensures to == if value == "" then None else Some(value)
    {
      to := if value == "" then None else Some(value);
    }

    /** The query of the list request for the current state: every set date
        filter is sent as it is stored, with the page and page size. */
    method ListQuery() returns (qs: seq<(Key, string)>)
      requires Valid()
      ensures Lookup(qs, From) == from && Lookup(qs, To) == to
      ensures Lookup(qs, Page) == Some(Decimal.IntToString(page))
      ensures Lookup(qs, Limit) == Some(Decimal.IntToString(limit))
      ensures forall i, j :: 0 <= i < j < |qs| ==> KeyRank(qs[i].0) < KeyRank(qs[j].0)
    {
      qs := BuildQuery(from, to, page, limit);
    }

    /** Storing a list response: an empty response (as after an unauthorised
        request) leaves no items and a total of zero. */
    method ApplyPage(data: Option<PageData>)
      requires Valid()
      modifies this`workdays, this`total
      ensures Valid()
      ensures data.None? ==> workdays == [] && total == 0
      ensures data.Some? ==> workdays == data.value.items && total == data.value.total
    {
      match data
      case None =>
        workdays := [];
        total := 0;
      case Some(d) =>
        workdays := d.items;
        total := d.total;
    }

    /** `addToast`: the new entry goes at the end, after the earlier ones. */
    method AddToast(id: nat, message: string, kind: Kind)
      requires Valid()
      modifies this`toasts
      ensures Valid()
      ensures toasts == old(toasts) + [Toast(id, message, kind)]
    {
      toasts := toasts + [Toast(id, message, kind)];
    }

    /** The timer of toast `id` firing: only entries with that id go. */
    method RemoveToast(id: nat)
      requires Valid()
      modifies this`toasts
      ensures Valid()
      ensures toasts == RemoveById(old(toasts), id)
    {
      toasts := RemoveById(toasts, id);
    }
  }
}
