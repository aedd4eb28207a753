/**
 * The standard-library behaviour the rules depend on but that this model
 * does not define: number parsing, regular expressions and float formatting.
 * Every property proved about the rules holds for every real-valued
 * behaviour of these functions.
 */
module Platform {
  import opened Wrappers

  datatype Host = Host(
    /** strconv.ParseFloat(s, 64): the number, or the text of its error. */
    parseFloat: string -> Result<real, string>,
    /** strconv.Atoi(s): the int, or the text of its error. */
    atoi: string -> Result<int, string>,
    /** regexp.Compile(src): None when `src` compiles, else the error text. */
    compile: string -> Option<string>,
    /** (*regexp.Regexp).MatchString for the compiled `src`: does some
        substring of `s` match (an unanchored search)? */
    matchString: (string, string) -> bool,
    /** fmt's %v of a float64. */
    formatFloat: real -> string)
}
