/** The part of Go's `net` package the forwarder relies on. */
module Net {
  import opened Options

  /** A resolved TCP endpoint (`*net.TCPAddr`). */
  datatype TcpAddr = TcpAddr(ip: string, port: nat)

  /** `net.ResolveTCPAddr("tcp", ·)`, left uninterpreted: `None` stands for
      the error return. Host lookup and port-range checks are its business. */
  type Resolver = string -> Option<TcpAddr>
}
