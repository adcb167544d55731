/** The HostedControlPlane object as the etcd reconciler sees it. Times are seconds; None is the zero time. */
module ControlPlane {
  import opened Common
  import opened Admission

  datatype BackupStatus = BackupStatus(last: Option<int>, next: Option<int>)
  datatype DefragStatus = DefragStatus(lastAttempted: Option<int>, last: Option<int>)

  /** The status fields the etcd reconciler owns. */
  datatype EtcdStatus = EtcdStatus(volumeSize: int, volumeUsage: int, backup: BackupStatus, defrag: DefragStatus)

  const INITIAL_STATUS := EtcdStatus(0, 0, BackupStatus(None, None), DefragStatus(None, None))

  class HostedControlPlane {
    var spec: Spec
    var volumeSize: int
    var volumeUsage: int
    var backup: BackupStatus
    var defrag: DefragStatus

    function Status(): EtcdStatus
      reads this
    {
      EtcdStatus(volumeSize, volumeUsage, backup, defrag)
    }

    constructor (spec: Spec)
      ensures this.spec == spec && Status() == INITIAL_STATUS
    {
      this.spec := spec;
      volumeSize, volumeUsage := 0, 0;
      backup := BackupStatus(None, None);
      defrag := DefragStatus(None, None);
    }
  }
}
