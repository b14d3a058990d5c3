/**
 * The HID class requests answered by `usbFunctionSetup` in main.c (section 7.2 of the
 * USB Device Class Definition for HID 1.11), decoded from the 8-byte SETUP packet.
 */
module Setup {
  import opened Bytes
  import Reports

  /** Request-type field of bmRequestType (bits 6..5, section 9.3 of USB 2.0) and its "class" value. */
  const TypeMask: bv8 := 0x60
  const TypeClass: bv8 := 0x20

  /** bRequest codes of the HID class requests (section 7.2 of HID 1.11). */
  const HidGetReport: Byte := 0x01
  const HidGetIdle: Byte := 0x02
  const HidSetIdle: Byte := 0x0a

  /** SETUP packet layout: bmRequestType, bRequest, wValue (low, high), wIndex, wLength. */
  const SetupSize: nat := 8

  /** What the firmware makes of a SETUP packet. */
  datatype HidRequest = GetReport | GetIdle | SetIdle(rate: Byte) | Unsupported

  predicate IsClassRequest(bmRequestType: Byte)
  {
    (bmRequestType as bv8) & TypeMask == TypeClass
  }

  /** The request a SETUP packet carries, as far as this firmware tells requests apart. */
  function Classify(setup: seq<Byte>): (rq: HidRequest)
    requires |setup| == SetupSize
    ensures rq != Unsupported ==> IsClassRequest(setup[0])
    ensures rq == GetReport <==> IsClassRequest(setup[0]) && setup[1] == HidGetReport
    ensures rq == GetIdle <==> IsClassRequest(setup[0]) && setup[1] == HidGetIdle
    ensures rq.SetIdle? <==> IsClassRequest(setup[0]) && setup[1] == HidSetIdle
    ensures rq.SetIdle? ==> rq.rate == setup[3]
  {
    if !IsClassRequest(setup[0]) then Unsupported
    else if setup[1] == HidGetReport then GetReport
    else if setup[1] == HidGetIdle then GetIdle
    else if setup[1] == HidSetIdle then SetIdle(setup[3])
    else Unsupported
  }

  /**
   * A SETUP packet a host sends for each request: Get_Report asks for the input report
   * (report type 1 in the high byte of wValue), Set_Idle puts the duration in that high byte.
   */
  function SetupPacket(rq: HidRequest): (setup: seq<Byte>)
    ensures |setup| == SetupSize
  {
    match rq
    case GetReport => [0xa1, HidGetReport, 0x00, 0x01, 0x00, 0x00, Reports.ReportSize as Byte, 0x00]
    case GetIdle => [0xa1, HidGetIdle, 0x00, 0x00, 0x00, 0x00, 0x01, 0x00]
    case SetIdle(rate) => [0x21, HidSetIdle, 0x00, rate, 0x00, 0x00, 0x00, 0x00]
    case Unsupported => [0x80, 0x06, 0x00, 0x01, 0x00, 0x00, 0x12, 0x00]  // a standard GET_DESCRIPTOR
  }

  /** The firmware decodes every request a host encodes back to that same request. */
  lemma ClassifyRoundTrip(rq: HidRequest)
    ensures Classify(SetupPacket(rq)) == rq
  {
  }

  /** Where `usbMsgPtr` points when the function returns. */
  datatype MsgPtr = ReportBufferPtr | IdleRatePtr

  /** Number of bytes behind each target of `usbMsgPtr`. */
  function PointeeSize(p: MsgPtr): nat
  {
    match p
    case ReportBufferPtr => Reports.ReportSize
    case IdleRatePtr => 1
  }

  /** The data stage `usbFunctionSetup` offers: its return value and where `usbMsgPtr` points. */
  datatype Reply = Reply(len: Byte, ptr: MsgPtr)

  /** The reply to each request: the whole object `usbMsgPtr` points at, or no data stage. */
  function ReplyFor(rq: HidRequest): (r: Reply)
    ensures r.len > 0 <==> rq == GetReport || rq == GetIdle
    ensures r.len > 0 ==> r.len as nat == PointeeSize(r.ptr)
    ensures r.ptr == IdleRatePtr <==> rq == GetIdle
  {
    match rq
    case GetReport => Reply(Reports.ReportSize as Byte, ReportBufferPtr)
    case GetIdle => Reply(1, IdleRatePtr)
    case _ => Reply(0, ReportBufferPtr)
  }
}
