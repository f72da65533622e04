/** One sensor measurement, as it travels through the gateway. */
module Readings {
  datatype Reading = Reading(id: nat, value: real, ts: int)
}
