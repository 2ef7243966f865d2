module Characters {

  /** The end of a C string, and the sentinel behind the scanner's buffer. */
  const NUL: char := '\0'
}
