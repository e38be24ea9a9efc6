/** Record shapes the authentication code reads but does not define. */
module Models {

  /** A user of the session API, reduced to what the authentication code reads:
      its identifier and its email. */
  datatype User = User(id: string, email: string)

  /** An incoming request: its path and its headers. Header names are keys in
      their canonical spelling (`Authorization`); the case-insensitive lookup
      of the web framework is not modelled. */
  datatype Request = Request(path: string, headers: map<string, string>)
}
