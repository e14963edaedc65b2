/** Shared vocabulary of the overlay driver model: optional values, results,
    collaborator outcomes, the driver's error values and Go's uint32. */
module Base {

  /** Go's uint32 (VNIs are stored in this width). */
  type uint32 = x: int | 0 <= x < 0x1_0000_0000

  const Two32: int := 0x1_0000_0000

  /** Go's uint64 range; the upper bound of an int64 is Two63 - 1. */
  const Two63: int := 0x8000_0000_0000_0000
  const Two64: int := 0x1_0000_0000_0000_0000

  /** Go's uint32(x) conversion of an integer: keep the low 32 bits. */
  function ToUint32(x: int): (r: uint32)
    ensures 0 <= x < Two32 ==> r == x
  {
    x % Two32
  }

  datatype Option<T> = None | Some(value: T)

  datatype Result<T> = Ok(value: T) | Err(error: Error)

  /** The outcome of a collaborator call that returns only an error. */
  datatype Outcome = Pass | Fail(message: string)

  /** The classes of error that the driver reports (plain `fmt.Errorf`,
      `types.BadRequestErrorf`, `types.ForbiddenErrorf`, `types.InternalErrorf`). */
  datatype ErrorKind = Plain | BadRequest | Forbidden | Internal

  datatype Error =
    | InvalidNetworkId
    | EmptyIPv4Pool
    | UnknownGenericData
    | InvalidVxlanId(piece: string)
    | InsufficientVnis(count: nat)
    | NetworkNotFound(nid: string)
    | BackendForbidden(message: string)
    | Failure(message: string)
    | UndecodableRecord
    | FieldTypeMismatch(field: string)
    | SubnetRecordMismatch
    | NilSubnetRecord
    | NilSubnetPrefix
    | NilVsidPolicy
    | InvalidSelfAddress(node: string)
    | InterfaceAddrsUnavailable(message: string)
    | SelfAddressNotLocal
    | SerfInitFailure(message: string)
    | SerfJoinFailure(message: string)
    | InvalidDiscoveryData
    | StoreAlreadyConfigured
    | IncorrectStoreConfig
    | StoreInitFailure(message: string)
  {
    /** The constructor the source uses for each error. */
    function Kind(): ErrorKind {
      match this
      case EmptyIPv4Pool => BadRequest
      case NetworkNotFound(_) => Forbidden
      case BackendForbidden(_) => Forbidden
      case StoreAlreadyConfigured => Forbidden
      case IncorrectStoreConfig => Internal
      case StoreInitFailure(_) => Internal
      case _ => Plain
    }
  }
}
