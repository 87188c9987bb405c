/** The failures the zone generator can run into, and the result type that
    carries them in place of Python exceptions. */
module Errors {

  datatype Error =
    /** the inventory reply was not JSON: its status code and raw body */
    | InventoryUnavailable(status: int, body: string)
    /** `ipaddress.ip_address` rejected the address string */
    | InvalidAddress(ip: string)
    /** the zone file at this path could not be opened for writing */
    | WriteFailure(path: string)

  datatype Result<+T> = Ok(value: T) | Err(error: Error)

  datatype Option<+T> = None | Some(value: T)
}
