/** The sandbox permissions an app declares (`nexpack-core/src/permission.rs`). */
module Permission {
  import opened ByteCodec

  datatype PermissionValue = Allowed(b: bool) | Patterns(patterns: seq<Bytes>)

  datatype PermissionSet = PermissionSet(
    network: PermissionValue,
    filesystem: seq<Bytes>,
    devices: seq<Bytes>,
    ipc: seq<Bytes>,
    display: Bytes)
}
