/** One entry of the webring's member list (the `members` array the page loads from its data file). */
module Members {

  /** Every field is a string; an absent field (`undefined` in the data file) is the empty string,
      which is how every test of the page script treats it (both are falsy). `faculty` is the
      older name of `program`, kept for backward compatibility. */
  datatype Member = Member(
    name: string,
    website: string,
    program: string,
    faculty: string,
    designation: string,
    year: string,
    grad: string,
    badge: string)
}
