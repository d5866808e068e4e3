/** Addresses and captured TCP segments, as the packet slicer hands them over. */
module Net {
  import opened Common

  /** An IPv4 or IPv6 address, by its value. */
  datatype IpAddr = V4(bits: nat) | V6(bits: nat)

  datatype Endpoint = Endpoint(ip: IpAddr, port: u16)

  /** The direction of a segment; `TcpFlowKey` and the SSH `FlowKey` hold the same four values. */
  datatype Flow = Flow(src: Endpoint, dst: Endpoint)

  function Reverse(f: Flow): Flow {
    Flow(f.dst, f.src)
  }

  /** When a packet was captured: whole seconds and microseconds, as the capture file says. */
  datatype Stamp = Stamp(sec: i64, usec: i64)

  /** A captured frame. One that holds no TCP segment counts as one with an empty payload, which is left alone too. */
  datatype Packet = Packet(stamp: Stamp, flow: Flow, seqNo: u32, payload: seq<u8>)
}
