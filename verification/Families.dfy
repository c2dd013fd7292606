/** The address families of the socket library. */
module Families {
  /** AF_INET, AF_INET6, or a number that is neither. */
  datatype Family = Inet | Inet6 | Other(af: int)
}
