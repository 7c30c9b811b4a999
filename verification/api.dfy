/**
 * The report records exchanged between the check task and the update tasks.
 * A report's sets of recommendations are kept as sequences in the order they
 * are iterated.
 */
module Api {
  /**
   * One recommended upgrade. A report that leaves out the current version
   * yields "" here.
   */
  datatype DependencyUpdateRec = DependencyUpdateRec(
    group: string,
    name: string,
    currentVersion: string,
    latestVersion: string)

  datatype UpdateReport = UpdateReport(
    project: string,
    dependencyUpdates: seq<DependencyUpdateRec>,
    pluginUpdates: seq<DependencyUpdateRec>)
}
