/**
 * The cross-origin test of the booking service (backend/server.js:9-12).
 * The request's Origin header is the empty string when it is absent.
 */
module Cors {
  /** The one front-end origin the server accepts (backend/server.js:9-10). */
  const AllowedOrigins: seq<string> := ["https://restaurant-table-booking-system-beg6.vercel.app"]

  /** Array search as JavaScript's indexOf does it: the first position of x, or -1 when x does not occur. */
  function IndexOf(list: seq<string>, x: string): (i: int)
    ensures -1 <= i < |list|
    ensures i == -1 <==> x !in list
    ensures 0 <= i ==> list[i] == x && x !in list[..i]
    decreases |list|
  {
    if list == [] then -1
    else if list[0] == x then 0
    else
      var j := IndexOf(list[1..], x);
      if j == -1 then -1
      else
        assert list[..j + 1] == [list[0]] + list[1..][..j];
        j + 1
  }

  /** The origin test of backend/server.js:12: found in the allowlist by index search, or absent. */
  function OriginAllowed(allowed: seq<string>, origin: string): (ok: bool)
    ensures ok <==> origin == "" || origin in allowed
  {
    IndexOf(allowed, origin) != -1 || origin == ""
  }

  /** The server's own allowlist: the deployed front end, or no Origin header at all. */
  lemma ServerOrigins(origin: string)
    ensures OriginAllowed(AllowedOrigins, origin)
        <==> origin == "" || origin == "https://restaurant-table-booking-system-beg6.vercel.app"
  {
  }
}
