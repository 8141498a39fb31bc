/** The two versions of the invitation page: the jQuery script and the plain DOM script. */
module Pages {
  datatype Page = JQueryPage | PlainPage
}
