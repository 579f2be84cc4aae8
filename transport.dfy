/**
 * The play/pause and stop buttons: a flag saying whether the player is
 * playing, and the commands the buttons send to the media player.
 */
module Transport {

  /** A call on the media player. */
  datatype Command = Play | Pause | Stop

  class Transport {
    /** What the window believes: true while the player plays. */
    var isPlaying: bool
    /** The commands sent to the player so far, oldest first. */
    var sent: seq<Command>

    constructor ()
      ensures !isPlaying && sent == [] && Agrees()
    {
      isPlaying := false;
      sent := [];
    }

    /** The flag agrees with the last command sent: playing exactly when the
        last command was Play. */
    predicate Agrees()
      reads this
    {
      isPlaying <==> (|sent| > 0 && sent[|sent| - 1] == Play)
    }

    /** Pause when playing, play otherwise, then flip the flag. */
    method PlayPause()
      modifies this
      ensures isPlaying == !old(isPlaying)
      ensures sent == old(sent) + [if old(isPlaying) then Pause else Play]
      ensures Agrees()
    {
      if isPlaying {
        sent := sent + [Pause];
      } else {
        sent := sent + [Play];
      }
      isPlaying := !isPlaying;
    }

    /** Stop the player from either state and clear the flag. */
    method Stop()
      modifies this
      ensures !isPlaying
      ensures sent == old(sent) + [Command.Stop]
      ensures Agrees()
    {
      sent := sent + [Command.Stop];
      isPlaying := false;
    }
  }
}
