/** The report type the condenser stores and ships (`TixDataPacket` of the
    tix-time-core library), reduced to the fields the condenser reads or the
    test generator sets. */
module Packets {
  import opened Bytes

  /** An `InetSocketAddress`, with its host as canonical IP text. Java
      compares resolved `InetAddress` values; the model compares this text, so
      two spellings of one address count as different, and an unresolved
      address (whose `getAddress()` is null) is not modelled. */
  datatype SocketAddress = SocketAddress(host: string, port: int)

  datatype Report = Report(
    from: SocketAddress,
    to: SocketAddress,
    initialTimestamp: Int64,    // nanoseconds, used for the inter-report gap check
    userId: Int64,
    installationId: Int64,
    publicKey: seq<byte>,
    message: seq<byte>,         // 45-byte observation records
    signature: seq<byte>,
    receptionTimestamp: Int64)

  /** The address the engine compares: `getFrom().getAddress()`, ignoring the
      port, as the host's canonical IP text. */
  function Host(r: Report): string {
    r.from.host
  }

  /** The I/O failures a store read can raise. */
  datatype StoreError =
    | NoSuchFile(name: string)      // a report file is missing on disk
    | EmptyFetch(key: Int64)        // `get(..).get(0)` on an empty answer
}
