/** Identities of the transfer layer that packet state is keyed on. */
module Transfer {
  import opened Bytes

  type Id = s: seq<byte> | |s| == 16 witness seq(16, i => 0)

  const ZERO_ID: Id := [0, 0, 0, 0, 0, 0, 0, 0, 0, 0, 0, 0, 0, 0, 0, 0]

  datatype TransferPath = TransferPath(destinationId: Id, sourceId: Id, streamId: Id)

  const NO_PATH: TransferPath := TransferPath(ZERO_ID, ZERO_ID, ZERO_ID)

  /** Transfer keys and provide modes are only ever compared for equality. */
  type TransferKey = nat
  type ProvideMode = int
}
