/** The kinds of approval a server asks for. */
module RequestKinds {

  datatype RequestKind = Command | FileRead | FileChange
}
