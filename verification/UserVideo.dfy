/** Where a program's own writes to video memory land: the page the scheduler maps for it and
    the page the display code keeps for its terminal are the same. */
module UserVideo {
  import ProcessSpec
  import ProcessRuns
  import opened Memory
  import opened ConsoleModel

  /** The display pages begin at physical address 0xB8000. */
  lemma MappedPageIsOwnPage(c: Console, s: ProcessSpec.Sys, shell: ProcessSpec.Command, here: ProcessSpec.Ctx)
    requires c.Valid() && ProcessSpec.Good(s) && s.shown == c.currTerm
    requires s.active[ProcessSpec.Next(s.sched)]
    ensures var (r, o) := ProcessSpec.Tick(s, shell, here);
            o.Resumed? && r.userVideo == ProcessSpec.VIDEO + c.Base(r.sched)
  {
    ProcessRuns.ResumedVideo(s, shell, here);
  }
}
