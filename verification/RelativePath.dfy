/** Joining the relative paths that fingerprints and copies carry. */
module RelativePath {
  function Child(relative: string, name: string): string {
    if relative == [] then name
    else if name == [] then relative
    else if relative[|relative| - 1] == '/' then relative + name
    else relative + "/" + name
  }
}
