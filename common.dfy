/** Definitions shared by both cores: the Linux errno values the code returns, negated
    as the C functions return them, and an Option type for NULL-able values. */
module Common {

  /** A value a C function returns on failure: always strictly negative. */
  type NegErr = x: int | x < 0 witness -1

  const ENOENT: int := 2
  const ENOMEM: int := 12
  const EEXIST: int := 17
  const ENODEV: int := 19
  const EINVAL: int := 22
  const EOPNOTSUPP: int := 95
  const ENOBUFS: int := 105
  const ETIMEDOUT: int := 110

  /** rtnetlink message types (linux/rtnetlink.h) used by the two cores. */
  const NLMSG_DONE: nat := 3
  const RTM_NEWLINK: nat := 16
  const RTM_DELLINK: nat := 17
  const RTM_NEWADDR: nat := 20
  const RTM_DELADDR: nat := 21
  const RTM_NEWROUTE: nat := 24
  const RTM_DELROUTE: nat := 25
  const RTM_NEWRULE: nat := 32
  const RTM_DELRULE: nat := 33

  /** POLLIN from poll.h. */
  const POLLIN: int := 1

  const UINT32_LIMIT: nat := 0x1_0000_0000
  const UINT64_LIMIT: nat := 0x1_0000_0000_0000_0000
  /** (uint64_t) -1, used as "infinity" for timeouts. */
  const UINT64_MAX: nat := UINT64_LIMIT - 1

  type Byte = bv8

  datatype Option<T> = None | Some(value: T)

  /** What a C function hands back through an out-parameter, or the error it returned instead. */
  datatype Result<T> = Ok(value: T) | Err(err: NegErr)
}
