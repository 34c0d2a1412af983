/** The exceptions the bootstrap script can end with, one constructor per kind. */
module Exceptions {

  datatype Exception =
    /** Selenium's `NoSuchElementException`: an element lookup found nothing. */
    | NoSuchElement
    /** Selenium's `TimeoutException`: a bounded wait never saw its condition hold. */
    | Timeout
    /** `IndexError`: the redirect URL has no second piece after splitting on the marker. */
    | IndexError
    /** `KeyError`: the parsed query has no entry for `key`. */
    | KeyError(key: string)
    /** The user entry is PIN-protected but no PIN was configured. */
    | PinRequired
    /** No device of the account carries the captured client identifier. */
    | ClientNotFound
}
