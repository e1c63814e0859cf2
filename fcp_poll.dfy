/** The first-contentful-paint poll: up to 20 readings of the page's paint
    entries, 100 ms apart, stopping at the first reading that has one. */
module FcpPoll {
  import opened Wrappers

  /** One entry of `performance.getEntriesByType("paint")`; times are in
      whole milliseconds here. */
  datatype PaintEntry = PaintEntry(name: string, startTime: int)

  const MaxPolls: nat := 20
  const FcpName: string := "first-contentful-paint"

  /** `paints.find(p => p.name === name)`, as an index. */
  function FindByName(paints: seq<PaintEntry>, name: string): (r: Option<nat>)
    ensures r.Some? ==> r.value < |paints| && paints[r.value].name == name
    ensures r.Some? ==> forall k :: 0 <= k < r.value ==> paints[k].name != name
    ensures r.None? ==> forall k :: 0 <= k < |paints| ==> paints[k].name != name
  {
    if |paints| == 0 then None
    else if paints[0].name == name then Some(0)
    else match FindByName(paints[1..], name)
      case None => None
      case Some(k) => Some(k + 1)
  }

  /** The poll. `readings[i]` is the paint list the page reports at the
      i-th poll; the page can always be read again, so there are at least 20,
      and only the first 20 are ever looked at. Returns the FCP start time
      (`None` for the source's `null`) and the number of readings taken. */
  method PollFcp(readings: seq<seq<PaintEntry>>) returns (fcp: Option<int>, polls: nat)
    requires |readings| >= MaxPolls
    ensures polls <= MaxPolls && polls <= |readings|
    ensures forall j :: 0 <= j < polls && (fcp.None? || j < polls - 1) ==> FindByName(readings[j], FcpName).None?
    ensures fcp.Some? ==>
      polls > 0 && FindByName(readings[polls - 1], FcpName).Some? &&
      fcp.value == readings[polls - 1][FindByName(readings[polls - 1], FcpName).value].startTime
    ensures fcp.None? ==> polls == MaxPolls
    ensures fcp.None? <==> forall j :: 0 <= j < MaxPolls ==>
      forall k :: 0 <= k < |readings[j]| ==> readings[j][k].name != FcpName
  {
    var i := 0;
    while i < MaxPolls
      invariant i <= MaxPolls
      invariant forall j :: 0 <= j < i ==> FindByName(readings[j], FcpName).None?
    {
      var paints := readings[i];
      var fcpEntry := FindByName(paints, FcpName);
      if fcpEntry.Some? {
        return Some(paints[fcpEntry.value].startTime), i + 1;
      }
      // the page is left alone for 100 ms before the next reading
      i := i + 1;
    }
    return None, i;
  }
}
