/** The part of the configuration that the per-packet policy reads (src/policy/PolicyConfig.hpp). */
module Config {
  import opened Bytes

  datatype TlsOptions = TlsOptions(
    enabled: bool,
    ports: seq<u16>,
    appDataKeepRecordBytes: u32,
    appDataContinuationKeepBytes: u32)

  datatype QuicOptions = QuicOptions(
    enabled: bool,
    ports: seq<u16>,
    shortHeaderKeepPacketBytes: u32,
    requireDcidMatch: bool,
    allowShortHeaderWithoutKnownDcid: bool)

  datatype PolicyConfig = PolicyConfig(
    minSavedBytesPerPacket: u32,
    defaultSnaplen: u32,
    maxCaptureLen: u32,
    tls: TlsOptions,
    quic: QuicOptions)

  predicate PortConfigured(ports: seq<u16>, port: u16) {
    port in ports
  }
}
