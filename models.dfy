/** The records exchanged with the API. */
module Models {
  import opened Wrappers
  import FileSystem

  /** System.Guid, kept as the text its default ToString() gives. */
  datatype Guid = Guid(text: string)

  /**
   * A server of the catalog, with the fields the client reads: the four it
   * shows in the server table and the file name it resolves a profile by.
   * The server type is kept as the text its ToString() shows.
   */
  datatype Server = Server(countryName: string, serverName: string, status: bool, typeName: string, fileName: string)

  /** The /api/auth reply. */
  datatype AuthResponse = AuthResponse(code: int, message: string, sessionId: Guid)

  /** The /api/configs reply: a base64 text holding a ZIP archive. */
  datatype ConfigResponse = ConfigResponse(code: int, message: string, configArchiveBase64: string)

  /**
   * Downloaded archive bytes: `image` is how the file reads as lines when
   * written to disk; `entries` is what extraction finds in it, None when the
   * bytes are not a readable ZIP archive (InvalidDataException).
   */
  datatype Archive = Archive(image: seq<string>, entries: Option<seq<FileSystem.Entry>>)
}
