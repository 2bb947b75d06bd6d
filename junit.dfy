/**
 * The parsed JUnit result tree that the renderer walks, as xml2js hands it
 * over: `testsuites > testsuite* > (properties > property*, testcase*)`.
 * Attribute values are the strings found in the XML.
 */
module JUnit {
  import opened Wrappers

  /** One `<property name=… value=…/>` of a suite's first `<properties>` element. */
  datatype Property = Property(name: string, value: string)

  /**
   * One `<testcase>`. `error` is the `message` attribute of its first `<error>`
   * child when it has one; `systemErr` holds the texts of its `<system-err>`
   * children when there are any.
   */
  datatype TestCase = TestCase(
    name: string,
    time: string,
    error: Option<string>,
    systemErr: Option<seq<string>>)

  /**
   * One `<testsuite>`: its attributes, the `<property>` children of its first
   * `<properties>` element in order (read by position, not by name), and its
   * test cases in order.
   */
  datatype Suite = Suite(
    time: string,
    tests: string,
    failures: string,
    errors: string,
    skipped: string,
    properties: seq<Property>,
    cases: seq<TestCase>)

  /** The `<testsuite>` elements of one result file, in order; the first carries metadata only. */
  type Document = seq<Suite>
}
