/** The three coefficient controllers side by side. */
module McuBuilders {
  import opened McuLayout
  import S = McuSinglePass
  import F = McuFullBuffer
  import T = McuTranscode

  /** Each controller is called as often as there is an entry in its list of rooms, and hands over no more
      MCUs in a call than the entry says: those that come to the end have handed over the same MCUs. Each
      comes to the end if as many of its entries as there are MCUs are not zero. */
  method RunAll(s: Scan, img: seq<Plane>, rooms1: seq<nat>, rooms2: seq<nat>, rooms3: seq<nat>)
    returns (single: S.CoefController, full: F.FullBufferController, trans: T.TransController)
    requires s.Ok() && ImageOk(s.f, img)
    ensures fresh(single) && fresh(full) && fresh(trans)
    ensures single.imcuRowNum == full.imcuRowNum == trans.imcuRowNum == s.f.down ==>
      single.sent == full.sent == trans.sent == AllMcus(s, img)
    ensures NotEmpty(rooms1) >= s.McuRows() * s.McusPerRow() ==> single.imcuRowNum == s.f.down
    ensures NotEmpty(rooms2) >= s.McuRows() * s.McusPerRow() ==> full.imcuRowNum == s.f.down
    ensures NotEmpty(rooms3) >= s.McuRows() * s.McusPerRow() ==> trans.imcuRowNum == s.f.down
  {
    hide AllMcus, Calls, NotEmpty;
    PassEnds(s, rooms1);
    PassEnds(s, rooms2);
    PassEnds(s, rooms3);
    single := new S.CoefController(s, img);
    full := new F.FullBufferController(s, img);
    trans := new T.TransController(s, img);
    single.RunPass(rooms1);
    full.RunFirstPass(rooms2);
    trans.RunPass(rooms3);
  }
}
