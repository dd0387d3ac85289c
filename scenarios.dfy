/** A sequence of user gestures, followed through the store's transitions. */
module Scenarios {
  import opened Seqs
  import opened Text
  import opened Ipv4
  import opened Records
  import opened Operations

  /** Create a server, create an active service on it, open the server for editing and
      save it as `inactive`: the service is now inactive, and dragging it anywhere leaves
      the store as it is. */
  lemma DeactivatedServiceCannotBeDragged(st: State, srvName: string, ip: string, svcName: string, desc: string,
                                          srvId: string, svcId: string, otherId: string, targetId: string)
    requires Trim(srvName) != [] && IpValid(Trim(ip)) && Trim(svcName) != []
    requires st.editMode == None && srvId != [] && IdUnused(st, srvId)
    ensures var s1 := SubmitServer(st, srvName, ip, "", ACTIVE, srvId);
      var s2 := SubmitService(s1.0, svcName, desc, srvId, ACTIVE, svcId);
      var s3 := s2.0.(editMode := Some(EditContext(ServerKind, srvId)));
      var s4 := SubmitServer(s3, srvName, ip, "", INACTIVE, otherId);
      && s1.1 == Created(srvId) && s2.1 == Created(svcId) && s4.1 == Updated
      && |s4.0.services| == |st.services| + 1
      && s4.0.services[|st.services|] == Service(svcId, Trim(svcName), Trim(desc), srvId, INACTIVE)
      && DragAndDrop(s4.0, s4.0.services[|st.services|], targetId) == s4.0
  {
    var n := |st.servers|;
    var s1 := SubmitServer(st, srvName, ip, "", ACTIVE, srvId);
    CreatedServerIsFound(st, srvName, ip, "", ACTIVE, srvId);
    assert AcceptsServices(s1.0.servers, srvId);
    var s2 := SubmitService(s1.0, svcName, desc, srvId, ACTIVE, svcId);
    assert s2.0.services == st.services + [Service(svcId, Trim(svcName), Trim(desc), srvId, ACTIVE)];
    var s3 := s2.0.(editMode := Some(EditContext(ServerKind, srvId)));
    ServerDeactivationCascades(s3, srvName, ip, "", otherId, n);
  }
}
