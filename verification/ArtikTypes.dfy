/** Types that the modelled components share. */
module ArtikTypes {

  datatype Option<+T> = None | Some(value: T)

  /** An address in C memory; no object lives at zero. */
  type Addr = nat

  const NULL: Addr := 0

  /** The codes of `artik_error` that the modelled functions return. */
  datatype Error = S_OK | E_BAD_ARGS | E_INVALID_VALUE | E_NOT_INITIALIZED | E_BUSY | E_BT_ERROR
}
