/** The announcement bar: the first active announcement of the loaded list, or nothing. */
module AnnouncementBar {
  import opened Wrappers
  import opened Tables
  import opened Schema
  import Storage

  /** `announcements?.find(a => a.active)` */
  function ActiveAnnouncement(announcements: Option<seq<Announcement>>): (r: Option<Announcement>)
    ensures r.None? <==> announcements.None? || forall i :: 0 <= i < |announcements.value| ==> !announcements.value[i].active
    ensures r.Some? ==> r.value.active && r.value in announcements.value
    ensures r.Some? ==>
      exists k :: 0 <= k < |announcements.value| && announcements.value[k] == r.value
        && forall j :: 0 <= j < k ==> !announcements.value[j].active
  {
    if announcements.None? then None
    else
      var r := FindFirst(announcements.value, Storage.IsActive);
      assert r.Some? ==> announcements.value[FirstIndex(announcements.value, Storage.IsActive)] == r.value;
      r
  }

  /** The text of the bar: the content of the shown announcement; nothing is rendered without one. */
  function BarText(announcements: Option<seq<Announcement>>): (r: Option<string>)
    ensures r.Some? <==> ActiveAnnouncement(announcements).Some?
    ensures r.Some? ==> r.value == ActiveAnnouncement(announcements).value.content
  {
    match ActiveAnnouncement(announcements)
    case None => None
    case Some(a) => Some(a.content)
  }

  /**
   * Fed the list the server sends, which holds the active announcements only,
   * the bar shows the first active announcement in stored order.
   */
  lemma BarShowsFirstStoredActive(stored: seq<Announcement>)
    ensures ActiveAnnouncement(Some(Filter(stored, Storage.IsActive))) == FindFirst(stored, Storage.IsActive)
  {
    FindFirstAfterFilter(stored, Storage.IsActive);
  }
}
